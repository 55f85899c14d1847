/**
  Line files: how `docs.tsv`, `mid.tsv` and `vocab.txt` are written line by line, how `str::lines` reads
  them back, and what is lost on the way.
 */
module Text {
  import opened Base

  /** A line without its carriage return, if it ends in one. */
  function StripCr(s: Bytes): Bytes {
    if s != [] && s[|s| - 1] == CR then s[..|s| - 1] else s
  }

  /** Position of the first line feed, or `|s|`. */
  function FirstLf(s: Bytes): (i: nat)
    ensures i <= |s|
    ensures LF !in s[..i]
    ensures i < |s| ==> s[i] == LF
  {
    if s == [] || s[0] == LF then 0
    else
      assert s[1..][..FirstLf(s[1..])] == s[1..1 + FirstLf(s[1..])];
      assert s[..1 + FirstLf(s[1..])] == [s[0]] + s[1..1 + FirstLf(s[1..])];
      1 + FirstLf(s[1..])
  }

  /**
    `str::lines`: a line ends at a line feed, and loses one carriage return in front of it; text
    after the last line feed is a line only when it is not empty, and is kept as it stands.
   */
  function Lines(s: Bytes): seq<Bytes>
    decreases |s|
  {
    if s == [] then []
    else
      var i := FirstLf(s);
      if i == |s| then [s] else [StripCr(s[..i])] + Lines(s[i + 1..])
  }

  /** Every line followed by a line feed (`docs.tsv`, `mid.tsv`). */
  function Terminated(lines: seq<Bytes>): Bytes {
    if lines == [] then [] else lines[0] + [LF] + Terminated(lines[1..])
  }

  /** Lines separated by line feeds, without one at the end (`vocab.txt`). */
  function Separated(lines: seq<Bytes>): Bytes {
    if lines == [] then []
    else if |lines| == 1 then lines[0]
    else lines[0] + [LF] + Separated(lines[1..])
  }

  function StripAll(lines: seq<Bytes>): (r: seq<Bytes>)
    ensures |r| == |lines|
    ensures forall i :: 0 <= i < |lines| ==> r[i] == StripCr(lines[i])
  {
    if lines == [] then [] else [StripCr(lines[0])] + StripAll(lines[1..])
  }

  ghost predicate OneLiners(lines: seq<Bytes>) {
    forall i :: 0 <= i < |lines| ==> LF !in lines[i]
  }

  /** In bytes: lines end in byte 10, and reading drops one byte 13 in front of it. */
  lemma LineEnds(b: Byte)
    requires b != 10
    ensures Terminated([[b]]) == [b, 10]
    ensures Lines([b, 13, 10]) == [[b]]
  {
    var s: Bytes := [b, 13, 10];
    assert [[b]][1..] == [];
    assert FirstLf(s) == 2 by {
      assert s[1..] == [13, 10] && s[1..][1..] == [10];
      assert FirstLf([10]) == 0;
      assert FirstLf([13, 10]) == 1;
    }
    assert s[..2] == [b, 13] && s[3..] == [];
    assert StripCr([b, 13]) == [b];
  }

  lemma FirstLfOf(head: Bytes, rest: Bytes)
    requires LF !in head
    ensures FirstLf(head + [LF] + rest) == |head|
  {
    if head != [] {
      FirstLfOf(head[1..], rest);
      assert (head + [LF] + rest)[1..] == head[1..] + [LF] + rest;
    }
  }

  lemma LinesStep(head: Bytes, rest: Bytes)
    requires LF !in head
    ensures Lines(head + [LF] + rest) == [StripCr(head)] + Lines(rest)
  {
    var s := head + [LF] + rest;
    FirstLfOf(head, rest);
    assert s[..|head|] == head && s[|head| + 1..] == rest;
  }

  lemma {:induction false} LinesOfTerminated(lines: seq<Bytes>)
    requires OneLiners(lines)
    ensures Lines(Terminated(lines)) == StripAll(lines)
    decreases |lines|
  {
    if lines != [] {
      LinesStep(lines[0], Terminated(lines[1..]));
      LinesOfTerminated(lines[1..]);
    }
  }

  /**
    A terminated line file reads back unchanged exactly when no line ends in a carriage return.
   */
  lemma TerminatedRoundTrip(lines: seq<Bytes>)
    requires OneLiners(lines)
    ensures Lines(Terminated(lines)) == lines
       <==> forall i :: 0 <= i < |lines| ==> lines[i] == [] || lines[i][|lines[i]| - 1] != CR
  {
    LinesOfTerminated(lines);
    if i :| 0 <= i < |lines| && lines[i] != [] && lines[i][|lines[i]| - 1] == CR {
      assert |StripAll(lines)[i]| < |lines[i]|;
    } else {
      assert StripAll(lines) == lines;
    }
  }

  /** A separated file loses the carriage returns of all lines but the last, and an empty last line. */
  lemma {:induction false} LinesOfSeparated(lines: seq<Bytes>)
    requires OneLiners(lines) && lines != []
    ensures var last := lines[|lines| - 1];
            Lines(Separated(lines)) == StripAll(lines[..|lines| - 1]) + if last == [] then [] else [last]
    decreases |lines|
  {
    hide Lines, StripCr, OneLiners;
    var n, last := |lines|, lines[|lines| - 1];
    var rest := lines[1..];
    if n == 1 {
      SingleLine(lines);
    } else {
      OneLinersTail(lines);
      LinesStep(lines[0], Separated(rest));
      LinesOfSeparated(rest);
      assert lines[..n - 1][1..] == rest[..n - 2];
      assert lines[..n - 1][0] == lines[0];
    }
  }

  lemma OneLinersTail(lines: seq<Bytes>)
    requires OneLiners(lines) && lines != []
    ensures LF !in lines[0] && OneLiners(lines[1..])
  {
  }

  lemma SingleLine(lines: seq<Bytes>)
    requires OneLiners(lines) && |lines| == 1
    ensures Lines(Separated(lines)) == if lines[0] == [] then [] else [lines[0]]
  {
    FirstLfAbsent(lines[0]);
  }

  lemma FirstLfAbsent(s: Bytes)
    requires LF !in s
    ensures FirstLf(s) == |s|
  {
  }
}
