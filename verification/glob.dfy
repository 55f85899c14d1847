/**
  Globs of the MAINTAINERS file: what a glob denotes, the regular expression it is compiled to byte by byte,
  and when the compiled expression keeps the meaning.
 */
module Glob {
  import opened Base

  const DOLLAR: Byte := 36
  const STAR: Byte := 42
  const DOT: Byte := 46
  const QUESTION: Byte := 63
  const OPEN: Byte := 91
  const BACKSLASH: Byte := 92
  const CLOSE: Byte := 93
  const CARET: Byte := 94

  /** . ( ) [ ] { } + ^ $ | \ */
  const ESCAPED: set<Byte> := {46, 40, 41, 91, 93, 123, 125, 43, 94, 36, 124, 92}

  // ----- What a glob means --------------------------------------------------

  datatype Token = DoubleStar | Star | Question | Char(c: Byte)

  /** Left to right; two stars in a row are one token. */
  function Tokens(glob: Bytes): seq<Token> {
    if glob == [] then []
    else if glob[0] == STAR then
      if |glob| > 1 && glob[1] == STAR then [DoubleStar] + Tokens(glob[2..]) else [Star] + Tokens(glob[1..])
    else [if glob[0] == QUESTION then Question else Char(glob[0])] + Tokens(glob[1..])
  }

  /** A trailing slash stands for the subtree. */
  function AllTokens(glob: Bytes): seq<Token> {
    Tokens(glob) + if glob != [] && glob[|glob| - 1] == SLASH then [DoubleStar] else []
  }

  /** The text one token may stand for. */
  predicate Fits(t: Token, piece: Bytes) {
    match t
    case DoubleStar => true
    case Star => SLASH !in piece
    case Question => |piece| == 1
    case Char(c) => piece == [c]
  }

  ghost predicate Split(tokens: seq<Token>, pieces: seq<Bytes>, path: Bytes) {
    && |pieces| == |tokens| && Concat<Byte>(pieces) == path
    && forall i :: 0 <= i < |tokens| ==> Fits(tokens[i], pieces[i])
  }

  /** The path is a piece for every token, one behind the other. */
  ghost predicate Denotes(tokens: seq<Token>, path: Bytes) {
    exists pieces :: Split(tokens, pieces, path)
  }

  ghost predicate GlobMatches(glob: Bytes, path: Bytes) {
    Denotes(AllTokens(glob), path)
  }

  // ----- Regular expressions ------------------------------------------------

  datatype Atom = Any | NotSlash | Literal(c: Byte)

  datatype Node = Begin | End | One(atom: Atom) | Many(atom: Atom)

  predicate Accepts(a: Atom, b: Byte) {
    match a
    case Any => b != LF
    case NotSlash => b != SLASH
    case Literal(c) => b == c
  }

  /** The rest of the expression matches the rest of the path, up to its end. */
  predicate MatchFrom(re: seq<Node>, path: Bytes, pos: nat)
    requires pos <= |path|
    decreases |re|, |path| - pos
  {
    if re == [] then pos == |path|
    else
      match re[0]
      case Begin => pos == 0 && MatchFrom(re[1..], path, pos)
      case End => pos == |path| && MatchFrom(re[1..], path, pos)
      case One(a) => pos < |path| && Accepts(a, path[pos]) && MatchFrom(re[1..], path, pos + 1)
      case Many(a) =>
        || MatchFrom(re[1..], path, pos)
        || (pos < |path| && Accepts(a, path[pos]) && MatchFrom(re, path, pos + 1))
  }

  /** The unanchored search; the automaton's state counts only at the end of the path. */
  predicate Search(re: seq<Node>, path: Bytes) {
    exists pos | 0 <= pos <= |path| :: MatchFrom(re, path, pos)
  }

  predicate IsRepeat(b: Byte) {
    b == STAR || b == QUESTION || b == 43 || b == 123
  }

  predicate NoRepeat(s: Bytes) {
    s == [] || !IsRepeat(s[0])
  }

  /** One atom at the front of the expression text, and its length. */
  function ParseAtom(s: Bytes): (r: Option<(Atom, nat)>)
    requires s != []
    ensures r.Some? ==> 1 <= r.value.1 <= |s|
  {
    if s[0] == DOT then Some((Any, 1))
    else if s[0] == OPEN then if |s| >= 4 && s[1..4] == [CARET, SLASH, CLOSE] then Some((NotSlash, 4)) else None
    else if s[0] == BACKSLASH then if |s| >= 2 && s[1] in ESCAPED then Some((Literal(s[1]), 2)) else None
    else if s[0] in ESCAPED || IsRepeat(s[0]) then None
    else Some((Literal(s[0]), 1))
  }

  /** The part of the regex syntax needed here: anchors, atoms, and atoms repeated by a star. */
  function Parse(s: Bytes): Option<seq<Node>>
    decreases |s|
  {
    if s == [] then Some([])
    else if s[0] == CARET then Then(Begin, Parse(s[1..]))
    else if s[0] == DOLLAR then Then(End, Parse(s[1..]))
    else
      match ParseAtom(s)
      case None => None
      case Some((a, n)) =>
        if n < |s| && s[n] == STAR then
          if NoRepeat(s[n + 1..]) then Then(Many(a), Parse(s[n + 1..])) else None
        else if NoRepeat(s[n..]) then Then(One(a), Parse(s[n..]))
        else None
  }

  function Then(n: Node, rest: Option<seq<Node>>): Option<seq<Node>> {
    match rest
    case None => None
    case Some(r) => Some([n] + r)
  }

  // ----- Compiling ----------------------------------------------------------

  /** A byte pushed as a character: from 128 on that is two bytes of UTF-8. */
  function PushChar(c: Byte): Bytes {
    if c < 128 then [c] else [192 + c / 64, 128 + c % 64]
  }

  function Emit(t: Token): Bytes {
    match t
    case DoubleStar => [DOT, STAR]
    case Star => [OPEN, CARET, SLASH, CLOSE, STAR]
    case Question => [DOT]
    case Char(c) => if c in ESCAPED then [BACKSLASH, c] else PushChar(c)
  }

  function EmitAll(tokens: seq<Token>): Bytes {
    if tokens == [] then [] else EmitAll(tokens[..|tokens| - 1]) + Emit(tokens[|tokens| - 1])
  }

  function CountSlashes(glob: Bytes): nat {
    if glob == [] then 0 else CountSlashes(glob[..|glob| - 1]) + if glob[|glob| - 1] == SLASH then 1 else 0
  }

  lemma {:induction false} CountSlashesIs(glob: Bytes)
    ensures CountSlashes(glob) == |set i | 0 <= i < |glob| && glob[i] == 47|
    decreases |glob|
  {
    if glob != [] {
      var front, n := glob[..|glob| - 1], |glob| - 1;
      CountSlashesIs(front);
      var before := set i | 0 <= i < |front| && front[i] == 47;
      assert (set i | 0 <= i < |glob| && glob[i] == 47) == before + if glob[n] == 47 then {n} else {};
    }
  }

  datatype Pattern = Pattern(glob: Bytes, regex: Bytes, depth: nat)

  function Compiled(glob: Bytes): Pattern {
    Pattern(glob, [CARET] + EmitAll(AllTokens(glob)) + [DOLLAR], CountSlashes(glob))
  }

  /** The text of a compiled glob, byte by byte: `a.?***[/`. */
  lemma CompiledText()
    ensures Compiled([97, 46, 63, 42, 42, 42, 91, 47]).regex
         == [94, 97, 92, 46, 46, 46, 42, 91, 94, 47, 93, 42, 92, 91, 47, 46, 42, 36]
  {
    hide EmitAll, Tokens, Emit;
    var g: Bytes := [97, 46, 63, 42, 42, 42, 91, 47];
    TokensByHand(g);
    LeftText();
    EmitMore([Char(97), Char(46), Question, DoubleStar], Star, Char(91), Char(47), DoubleStar);
    RightText();
  }

  lemma LeftText()
    ensures EmitAll([Char(97), Char(46), Question, DoubleStar]) == [97, 92, 46, 46, 46, 42]
  {
    EmitFour(Char(97), Char(46), Question, DoubleStar);
  }

  lemma RightText()
    ensures Emit(Star) == [91, 94, 47, 93, 42] && Emit(Char(91)) == [92, 91] && Emit(Char(47)) == [47]
    ensures Emit(DoubleStar) == [46, 42]
  {
  }

  /** These twelve bytes, and in plain ASCII no others, get a backslash. */
  lemma EscapedExactly(c: Byte)
    requires c < 128
    ensures Emit(Char(c)) == if c == 36 || c == 40 || c == 41 || c == 43 || c == 46 || 91 <= c <= 94 || 123 <= c <= 125
                             then [92, c] else [c]
  {
  }

  lemma TokensByHand(g: Bytes)
    requires g == [97, 46, 63, 42, 42, 42, 91, 47]
    ensures AllTokens(g) == [Char(97), Char(46), Question, DoubleStar] + [Star, Char(91), Char(47), DoubleStar]
  {
    assert g[1..] == [46, 63, 42, 42, 42, 91, 47] && g[1..][1..] == [63, 42, 42, 42, 91, 47];
    assert g[1..][1..][1..] == [42, 42, 42, 91, 47] && g[1..][1..][1..][2..] == [42, 91, 47];
    assert Tokens([42, 91, 47]) == [Star, Char(91), Char(47)] by {
      assert [42, 91, 47][1..] == [91, 47] && [91, 47][1..] == [47];
      assert Tokens([47]) == [Char(47)];
      assert Tokens([91, 47]) == [Char(91), Char(47)];
    }
    assert Tokens([42, 42, 42, 91, 47]) == [DoubleStar, Star, Char(91), Char(47)];
    assert Tokens([63, 42, 42, 42, 91, 47]) == [Question, DoubleStar, Star, Char(91), Char(47)];
    assert Tokens([46, 63, 42, 42, 42, 91, 47]) == [Char(46), Question, DoubleStar, Star, Char(91), Char(47)];
  }

  lemma EmitFour(a: Token, b: Token, c: Token, d: Token)
    ensures EmitAll([a, b, c, d]) == Emit(a) + Emit(b) + Emit(c) + Emit(d)
  {
    hide Emit, EmitAll;
    EmitNone();
    EmitMore([], a, b, c, d);
    assert [] + [a, b, c, d] == [a, b, c, d];
    assert [] + Emit(a) == Emit(a);
  }

  lemma EmitNone()
    ensures EmitAll([]) == []
  {
  }

  lemma EmitMore(front: seq<Token>, a: Token, b: Token, c: Token, d: Token)
    ensures EmitAll(front + [a, b, c, d]) == EmitAll(front) + Emit(a) + Emit(b) + Emit(c) + Emit(d)
  {
    hide Emit, EmitAll;
    EmitAllStep(front, a);
    EmitAllStep(front + [a], b);
    EmitAllStep(front + [a] + [b], c);
    EmitAllStep(front + [a] + [b] + [c], d);
    assert front + [a, b, c, d] == front + [a] + [b] + [c] + [d];
  }

  lemma EmitAllStep(tokens: seq<Token>, t: Token)
    ensures EmitAll(tokens + [t]) == EmitAll(tokens) + Emit(t)
  {
    assert (tokens + [t])[..|tokens|] == tokens;
  }

  /** How the front of the remaining glob becomes a token. */
  lemma TokensAt(glob: Bytes, i: nat)
    requires i < |glob|
    ensures glob[i] == STAR && i + 1 < |glob| && glob[i + 1] == STAR ==>
      Tokens(glob[i..]) == [DoubleStar] + Tokens(glob[i + 2..])
    ensures glob[i] == STAR && !(i + 1 < |glob| && glob[i + 1] == STAR) ==>
      Tokens(glob[i..]) == [Star] + Tokens(glob[i + 1..])
    ensures glob[i] == QUESTION ==> Tokens(glob[i..]) == [Question] + Tokens(glob[i + 1..])
    ensures glob[i] != STAR && glob[i] != QUESTION ==> Tokens(glob[i..]) == [Char(glob[i])] + Tokens(glob[i + 1..])
  {
    assert glob[i..][1..] == glob[i + 1..];
    assert i + 1 < |glob| ==> glob[i..][2..] == glob[i + 2..];
  }

  method CountDepth(glob: Bytes) returns (depth: nat)
    ensures depth == CountSlashes(glob)
  {
    depth := 0;
    assert glob[..0] == [];
    for k := 0 to |glob|
      invariant depth == CountSlashes(glob[..k])
    {
      assert glob[..k + 1][..k] == glob[..k];
      depth := depth + if glob[k] == SLASH then 1 else 0;
    }
    assert glob[..|glob|] == glob;
  }

  /** What has been written so far, and what is still to be read. */
  ghost predicate Written(glob: Bytes, i: nat, done: seq<Token>, regex: Bytes) {
    i <= |glob| && done + Tokens(glob[i..]) == Tokens(glob) && regex == [CARET] + EmitAll(done)
  }

  lemma WriteOn(glob: Bytes, i: nat, done: seq<Token>, regex: Bytes, t: Token, i': nat)
    requires Written(glob, i, done, regex) && i' <= |glob| && Tokens(glob[i..]) == [t] + Tokens(glob[i'..])
    ensures Written(glob, i', done + [t], regex + Emit(t))
  {
    hide Tokens, EmitAll, Emit;
    EmitAllStep(done, t);
    var rest := Tokens(glob[i'..]);
    assert done + ([t] + rest) == (done + [t]) + rest;
    assert [CARET] + EmitAll(done) + Emit(t) == [CARET] + (EmitAll(done) + Emit(t));
  }

  /** `compile_glob`. */
  method CompileGlob(glob: Bytes) returns (p: Pattern)
    ensures p == Compiled(glob)
  {
    hide Tokens, EmitAll, CountSlashes, Written, ESCAPED;
    var depth := CountDepth(glob);
    var regex := [CARET];
    var i := 0;
    ghost var done: seq<Token> := [];
    WriteStart(glob);
    while i < |glob|
      invariant i <= |glob| && Written(glob, i, done, regex)
    {
      var c := glob[i];
      TokensAt(glob, i);
      if c == STAR {
        if i + 1 < |glob| && glob[i + 1] == STAR {
          WriteOn(glob, i, done, regex, DoubleStar, i + 2);
          done := done + [DoubleStar];
          regex := regex + [DOT, STAR];
          i := i + 2;
          continue;
        }
        WriteOn(glob, i, done, regex, Star, i + 1);
        done := done + [Star];
        regex := regex + [OPEN, CARET, SLASH, CLOSE, STAR];
      } else if c == QUESTION {
        WriteOn(glob, i, done, regex, Question, i + 1);
        done := done + [Question];
        regex := regex + [DOT];
      } else {
        WriteOn(glob, i, done, regex, Char(c), i + 1);
        done := done + [Char(c)];
        if c in ESCAPED {
          regex := regex + [BACKSLASH, c];
        } else {
          regex := regex + PushChar(c);
        }
      }
      i := i + 1;
    }
    WriteEnd(glob, done, regex);
    if |glob| > 0 && glob[|glob| - 1] == SLASH {
      regex := regex + [DOT, STAR];
    }
    regex := regex + [DOLLAR];
    p := Pattern(glob, regex, depth);
  }

  lemma WriteStart(glob: Bytes)
    ensures Written(glob, 0, [], [CARET])
  {
    assert glob[0..] == glob;
  }

  lemma WriteEnd(glob: Bytes, done: seq<Token>, regex: Bytes)
    requires Written(glob, |glob|, done, regex)
    ensures (if |glob| > 0 && glob[|glob| - 1] == SLASH then regex + [DOT, STAR] else regex)
      == [CARET] + EmitAll(AllTokens(glob))
  {
    assert done + [] == done;
    EmitAllStep(done, DoubleStar);
    assert done == Tokens(glob);
  }

  // ----- Parsing back -------------------------------------------------------

  function NodesOf(t: Token): seq<Node> {
    match t
    case DoubleStar => [Many(Any)]
    case Star => [Many(NotSlash)]
    case Question => [One(Any)]
    case Char(c) =>
      if c in ESCAPED || c < 128 then [One(Literal(c))]
      else [One(Literal(192 + c / 64)), One(Literal(128 + c % 64))]
  }

  function AllNodes(tokens: seq<Token>): seq<Node> {
    if tokens == [] then [] else NodesOf(tokens[0]) + AllNodes(tokens[1..])
  }

  /** The tokens a glob can give: no star or question mark as a plain character. */
  predicate Plain(t: Token) {
    t.Char? ==> t.c != STAR && t.c != QUESTION
  }

  lemma {:induction false} TokensArePlain(glob: Bytes)
    ensures forall i :: 0 <= i < |Tokens(glob)| ==> Plain(Tokens(glob)[i])
    decreases |glob|
  {
    if glob != [] {
      if glob[0] == STAR && |glob| > 1 && glob[1] == STAR {
        TokensArePlain(glob[2..]);
      } else {
        TokensArePlain(glob[1..]);
      }
    }
  }

  lemma EmitFirst(t: Token, rest: Bytes)
    requires Plain(t)
    ensures Emit(t) + rest != [] && !IsRepeat((Emit(t) + rest)[0])
  {
  }

  lemma ParseEnd()
    ensures Parse([DOLLAR]) == Some([End])
  {
    var s := [DOLLAR];
    assert s[1..] == [];
    assert Parse(s[1..]) == Some([]);
    assert [End] + [] == [End];
  }

  lemma ParseOne(s: Bytes, a: Atom, n: nat, rest: Bytes)
    requires s != [] && s[0] != CARET && s[0] != DOLLAR && ParseAtom(s) == Some((a, n)) && s[n..] == rest
    requires NoRepeat(rest) && Parse(rest).Some?
    ensures Parse(s) == Some([One(a)] + Parse(rest).value)
  {
    hide ParseAtom;
    assert n < |s| ==> s[n] == rest[0];
  }

  lemma ParseMany(s: Bytes, a: Atom, n: nat, rest: Bytes)
    requires s != [] && s[0] != CARET && s[0] != DOLLAR && ParseAtom(s) == Some((a, n)) && s[n..] == [STAR] + rest
    requires NoRepeat(rest) && Parse(rest).Some?
    ensures Parse(s) == Some([Many(a)] + Parse(rest).value)
  {
    hide ParseAtom;
    assert s[n] == s[n..][0];
    assert s[n + 1..] == s[n..][1..];
    assert s[n..][1..] == rest;
  }

  lemma ParseBegin(rest: Bytes)
    requires Parse(rest).Some?
    ensures Parse([CARET] + rest) == Some([Begin] + Parse(rest).value)
  {
    var s := [CARET] + rest;
    assert s[1..] == rest;
  }

  lemma ParseChar(c: Byte, rest: Bytes)
    requires c != STAR && c != QUESTION && NoRepeat(rest) && Parse(rest).Some?
    ensures Parse(Emit(Char(c)) + rest) == Some(NodesOf(Char(c)) + Parse(rest).value)
  {
    hide Parse;
    var s := Emit(Char(c)) + rest;
    if c in ESCAPED {
      assert s[2..] == rest;
      ParseOne(s, Literal(c), 2, rest);
    } else if c < 128 {
      assert s[1..] == rest;
      ParseOne(s, Literal(c), 1, rest);
    } else {
      var a: Byte, b: Byte := 192 + c / 64, 128 + c % 64;
      assert s[1..] == [b] + rest;
      assert ([b] + rest)[1..] == rest;
      ParseOne([b] + rest, Literal(b), 1, rest);
      ParseOne(s, Literal(a), 1, [b] + rest);
      assert [One(Literal(a))] + ([One(Literal(b))] + Parse(rest).value) == NodesOf(Char(c)) + Parse(rest).value;
    }
  }

  /** One token's text parses to its nodes in front of whatever follows. */
  lemma ParseToken(t: Token, rest: Bytes)
    requires Plain(t) && NoRepeat(rest) && Parse(rest).Some?
    ensures Parse(Emit(t) + rest) == Some(NodesOf(t) + Parse(rest).value)
  {
    hide Parse;
    var s := Emit(t) + rest;
    match t
    case DoubleStar =>
      assert s[1..] == [STAR] + rest;
      ParseMany(s, Any, 1, rest);
    case Star =>
      assert s[1..4] == [CARET, SLASH, CLOSE];
      assert s[4..] == [STAR] + rest;
      ParseMany(s, NotSlash, 4, rest);
    case Question =>
      assert s[1..] == rest;
      ParseOne(s, Any, 1, rest);
    case Char(c) =>
      ParseChar(c, rest);
  }

  lemma {:induction false} EmitAllFront(tokens: seq<Token>)
    requires tokens != []
    ensures EmitAll(tokens) == Emit(tokens[0]) + EmitAll(tokens[1..])
    decreases |tokens|
  {
    hide Emit;
    var front, last := tokens[..|tokens| - 1], tokens[|tokens| - 1];
    if front == [] {
      assert tokens == [] + [last];
      EmitAllStep([], last);
    } else {
      EmitAllFront(front);
      assert tokens[1..] == front[1..] + [last];
      EmitAllStep(front[1..], last);
      assert front[0] == tokens[0];
    }
  }

  lemma {:induction false} ParseAll(tokens: seq<Token>)
    requires forall i :: 0 <= i < |tokens| ==> Plain(tokens[i])
    ensures Parse(EmitAll(tokens) + [DOLLAR]) == Some(AllNodes(tokens) + [End])
    ensures NoRepeat(EmitAll(tokens) + [DOLLAR])
    decreases |tokens|
  {
    hide Parse, Emit, NodesOf;
    if tokens == [] {
      ParseEnd();
      assert AllNodes(tokens) + [End] == [End];
      assert EmitAll(tokens) + [DOLLAR] == [DOLLAR];
    } else {
      ParseAll(tokens[1..]);
      EmitAllFront(tokens);
      var rest := EmitAll(tokens[1..]) + [DOLLAR];
      assert EmitAll(tokens) + [DOLLAR] == Emit(tokens[0]) + rest;
      ParseToken(tokens[0], rest);
      EmitFirst(tokens[0], rest);
      assert NodesOf(tokens[0]) + (AllNodes(tokens[1..]) + [End]) == AllNodes(tokens) + [End];
    }
  }

  /** The compiled text is a regular expression: the glob's nodes between the two anchors. */
  lemma CompiledParses(glob: Bytes)
    ensures Parse(Compiled(glob).regex) == Some([Begin] + AllNodes(AllTokens(glob)) + [End])
  {
    hide Parse, Emit, Tokens, AllNodes;
    TokensArePlain(glob);
    var tokens := AllTokens(glob);
    forall i | 0 <= i < |tokens| ensures Plain(tokens[i]) {
      if i < |Tokens(glob)| {
        assert tokens[i] == Tokens(glob)[i];
      }
    }
    ParseAll(tokens);
    ParseBegin(EmitAll(tokens) + [DOLLAR]);
    assert Compiled(glob).regex == [CARET] + (EmitAll(tokens) + [DOLLAR]);
    assert [Begin] + (AllNodes(tokens) + [End]) == [Begin] + AllNodes(tokens) + [End];
  }

  // ----- Meaning ------------------------------------------------------------

  ghost predicate Cut(t: Token, rest: seq<Token>, s: Bytes, n: nat) {
    n <= |s| && Fits(t, s[..n]) && Denotes(rest, s[n..])
  }

  lemma DenotesCons(tokens: seq<Token>, s: Bytes)
    requires tokens != []
    ensures Denotes(tokens, s) <==> exists n: nat :: Cut(tokens[0], tokens[1..], s, n)
  {
    if Denotes(tokens, s) {
      var pieces :| Split(tokens, pieces, s);
      var n := |pieces[0]|;
      ConcatHead<Byte>(pieces);
      assert s == pieces[0] + Concat<Byte>(pieces[1..]);
      assert s[..n] == pieces[0] && s[n..] == Concat<Byte>(pieces[1..]);
      assert Split(tokens[1..], pieces[1..], s[n..]);
      assert Cut(tokens[0], tokens[1..], s, n);
    }
    if n: nat :| Cut(tokens[0], tokens[1..], s, n) {
      var pieces :| Split(tokens[1..], pieces, s[n..]);
      var all := [s[..n]] + pieces;
      assert all[1..] == pieces;
      assert s[..n] + s[n..] == s;
      assert Split(tokens, all, s);
    }
  }

  lemma DenotesNothing(s: Bytes)
    ensures Denotes([], s) <==> s == []
  {
    if s == [] {
      assert Split([], [], s);
    }
  }

  /** A star either stands for nothing, or takes the next byte and goes on. */
  lemma DenotesStar(tokens: seq<Token>, s: Bytes)
    requires tokens != [] && (tokens[0].Star? || tokens[0].DoubleStar?)
    ensures Denotes(tokens, s)
       <==> Denotes(tokens[1..], s) || (s != [] && (tokens[0].Star? ==> s[0] != SLASH) && Denotes(tokens, s[1..]))
  {
    var t, rest := tokens[0], tokens[1..];
    DenotesCons(tokens, s);
    if n: nat :| Cut(t, rest, s, n) {
      if n == 0 {
        assert s[0..] == s;
      } else {
        assert s[..n][0] == s[0];
        assert s[1..][..n - 1] == s[..n][1..];
        assert s[1..][n - 1..] == s[n..];
        assert Cut(t, rest, s[1..], n - 1);
        DenotesCons(tokens, s[1..]);
      }
    }
    if Denotes(rest, s) {
      assert s[0..] == s;
      assert Cut(t, rest, s, 0);
    }
    if s != [] && (t.Star? ==> s[0] != SLASH) && Denotes(tokens, s[1..]) {
      DenotesCons(tokens, s[1..]);
      var n: nat :| Cut(t, rest, s[1..], n);
      assert s[..n + 1] == [s[0]] + s[1..][..n];
      assert s[n + 1..] == s[1..][n..];
      assert Cut(t, rest, s, n + 1);
    }
  }

  lemma DenotesOne(tokens: seq<Token>, s: Bytes)
    requires tokens != [] && (tokens[0].Question? || tokens[0].Char?)
    ensures Denotes(tokens, s)
       <==> s != [] && (tokens[0].Char? ==> s[0] == tokens[0].c) && Denotes(tokens[1..], s[1..])
  {
    DenotesCons(tokens, s);
    if n: nat :| Cut(tokens[0], tokens[1..], s, n) {
      assert n == 1 && s[..1][0] == s[0];
    }
    if s != [] && (tokens[0].Char? ==> s[0] == tokens[0].c) && Denotes(tokens[1..], s[1..]) {
      assert s[..1] == [s[0]];
      assert Cut(tokens[0], tokens[1..], s, 1);
    }
  }

  predicate Ascii(t: Token) {
    t.Char? ==> t.c < 128
  }

  /** Node by node the matcher does what the tokens denote. */
  lemma {:induction false} MatchIsDenotes(tokens: seq<Token>, path: Bytes, pos: nat)
    requires pos <= |path| && LF !in path && forall i :: 0 <= i < |tokens| ==> Ascii(tokens[i])
    ensures MatchFrom(AllNodes(tokens) + [End], path, pos) <==> Denotes(tokens, path[pos..])
    decreases |tokens|, |path| - pos
  {
    hide Denotes;
    var re := AllNodes(tokens) + [End];
    if tokens == [] {
      assert re == [End] && re[1..] == [];
      DenotesNothing(path[pos..]);
    } else {
      var t, rest := tokens[0], tokens[1..];
      var s := path[pos..];
      assert re == NodesOf(t) + (AllNodes(rest) + [End]);
      assert re[1..] == AllNodes(rest) + [End];
      if pos < |path| {
        assert s[0] == path[pos] && s[1..] == path[pos + 1..];
        assert path[pos] in path;
      }
      if t.Star? || t.DoubleStar? {
        DenotesStar(tokens, s);
        MatchIsDenotes(rest, path, pos);
        if pos < |path| {
          MatchIsDenotes(tokens, path, pos + 1);
        }
      } else {
        DenotesOne(tokens, s);
        if pos < |path| {
          MatchIsDenotes(rest, path, pos + 1);
        }
      }
    }
  }

  /** `pattern_matches`: an expression that does not parse matches nothing. */
  predicate PatternMatches(p: Pattern, path: Bytes) {
    match Parse(p.regex)
    case None => false
    case Some(re) => Search(re, path)
  }

  lemma AnchoredSearch(re: seq<Node>, path: Bytes)
    ensures Search([Begin] + re, path) <==> MatchFrom(re, path, 0)
  {
    var whole := [Begin] + re;
    assert whole[1..] == re;
    if MatchFrom(re, path, 0) {
      assert MatchFrom(whole, path, 0);
    }
  }

  predicate IsAscii(glob: Bytes) {
    forall c :: c in glob ==> c < 128
  }

  predicate AllAscii(tokens: seq<Token>) {
    forall i :: 0 <= i < |tokens| ==> Ascii(tokens[i])
  }

  lemma AsciiSplit(glob: Bytes, n: nat)
    requires 1 <= n <= 2 && n <= |glob| && (n == 2 ==> glob[1] == STAR)
    ensures IsAscii(glob) <==> glob[0] < 128 && IsAscii(glob[n..])
  {
    var tail := glob[n..];
    forall c | c in glob ensures c == glob[0] || c == STAR || c in tail {
      var i :| 0 <= i < |glob| && glob[i] == c;
      assert i >= n ==> tail[i - n] == c;
    }
    assert glob[0] in glob;
    forall c | c in tail ensures c in glob {
      var k :| 0 <= k < |tail| && tail[k] == c;
      assert glob[n + k] == c;
    }
  }

  lemma AllAsciiSplit(t: Token, rest: seq<Token>)
    ensures AllAscii([t] + rest) <==> Ascii(t) && AllAscii(rest)
  {
    var all := [t] + rest;
    assert all[0] == t && forall i :: 0 <= i < |rest| ==> all[i + 1] == rest[i];
  }

  lemma {:induction false} AsciiTokens(glob: Bytes)
    ensures AllAscii(Tokens(glob)) <==> IsAscii(glob)
    decreases |glob|
  {
    hide IsAscii, AllAscii;
    if glob == [] {
      assert AllAscii([]) && IsAscii([]) by {
        NothingIsAscii();
      }
    } else {
      var n := if glob[0] == STAR && |glob| > 1 && glob[1] == STAR then 2 else 1;
      AsciiTokens(glob[n..]);
      AsciiSplit(glob, n);
      AllAsciiSplit(Tokens(glob)[0], Tokens(glob[n..]));
      assert Tokens(glob) == [Tokens(glob)[0]] + Tokens(glob[n..]);
    }
  }

  lemma NothingIsAscii()
    ensures AllAscii([]) && IsAscii([])
  {
  }

  /** On ASCII globs and newline-free paths the compiled expression accepts exactly what the glob denotes. */
  lemma CompilationKeepsMeaning(glob: Bytes, path: Bytes)
    requires LF !in path && IsAscii(glob)
    ensures PatternMatches(Compiled(glob), path) <==> GlobMatches(glob, path)
  {
    hide Denotes, Parse, Search, MatchFrom;
    var tokens := AllTokens(glob);
    CompiledParses(glob);
    AsciiTokens(glob);
    assert [Begin] + AllNodes(tokens) + [End] == [Begin] + (AllNodes(tokens) + [End]);
    AnchoredSearch(AllNodes(tokens) + [End], path);
    MatchIsDenotes(tokens, path, 0);
    assert path[0..] == path;
  }

  // ----- And only on those --------------------------------------------------

  /** The least number of bytes an expression matches. */
  function Least(re: seq<Node>): nat {
    if re == [] then 0 else (if re[0].One? then 1 else 0) + Least(re[1..])
  }

  lemma {:induction false} MatchTakesLeast(re: seq<Node>, path: Bytes, pos: nat)
    requires pos <= |path| && MatchFrom(re, path, pos)
    ensures |path| - pos >= Least(re)
    decreases |re|, |path| - pos
  {
    if re != [] {
      match re[0]
      case Begin => MatchTakesLeast(re[1..], path, pos);
      case End => MatchTakesLeast(re[1..], path, pos);
      case One(a) => MatchTakesLeast(re[1..], path, pos + 1);
      case Many(a) =>
        if MatchFrom(re[1..], path, pos) {
          MatchTakesLeast(re[1..], path, pos);
        } else {
          MatchTakesLeast(re, path, pos + 1);
        }
    }
  }

  lemma {:induction false} LeastAppend(a: seq<Node>, b: seq<Node>)
    ensures Least(a + b) == Least(a) + Least(b)
    decreases |a|
  {
    if a == [] {
      assert a + b == b;
    } else {
      assert (a + b)[1..] == a[1..] + b;
      LeastAppend(a[1..], b);
    }
  }

  /** A shortest path the glob denotes. */
  function Sample(tokens: seq<Token>): Bytes {
    if tokens == [] then []
    else
      match tokens[0]
      case Char(c) => [c] + Sample(tokens[1..])
      case Question => [97] + Sample(tokens[1..])
      case _ => Sample(tokens[1..])
  }

  lemma {:induction false} SampleIsShortest(tokens: seq<Token>)
    ensures Denotes(tokens, Sample(tokens))
    ensures Least(AllNodes(tokens)) >= |Sample(tokens)|
    ensures (exists i :: 0 <= i < |tokens| && !Ascii(tokens[i])) ==> Least(AllNodes(tokens)) > |Sample(tokens)|
    decreases |tokens|
  {
    hide Denotes;
    if tokens == [] {
      DenotesNothing([]);
    } else {
      var rest := tokens[1..];
      SampleIsShortest(rest);
      LeastAppend(NodesOf(tokens[0]), AllNodes(rest));
      LeastOfToken(tokens[0]);
      if i :| 0 <= i < |tokens| && !Ascii(tokens[i]) && Ascii(tokens[0]) {
        assert rest[i - 1] == tokens[i];
      }
      if tokens[0].Star? || tokens[0].DoubleStar? {
        DenotesStar(tokens, Sample(tokens));
      } else {
        assert Sample(tokens)[1..] == Sample(rest);
        DenotesOne(tokens, Sample(tokens));
      }
    }
  }

  lemma LeastOfToken(t: Token)
    ensures Least(NodesOf(t)) == if t.Star? || t.DoubleStar? then 0 else if Ascii(t) then 1 else 2
  {
    var nodes := NodesOf(t);
    if |nodes| == 2 {
      LeastAppend([nodes[0]], [nodes[1]]);
      assert [nodes[0]] + [nodes[1]] == nodes;
    } else {
      assert nodes == [nodes[0]];
    }
  }

  lemma {:induction false} SampleBytes(tokens: seq<Token>, c: Byte)
    requires c in Sample(tokens) && c != 97
    ensures exists i :: 0 <= i < |tokens| && tokens[i] == Char(c)
    decreases |tokens|
  {
    if tokens[0] != Char(c) {
      SampleBytes(tokens[1..], c);
      var i :| 0 <= i < |tokens[1..]| && tokens[1..][i] == Char(c);
      assert tokens[i + 1] == Char(c);
    }
  }

  lemma {:induction false} TokenBytes(glob: Bytes, i: nat)
    requires i < |Tokens(glob)| && Tokens(glob)[i].Char?
    ensures Tokens(glob)[i].c in glob
    decreases |glob|
  {
    var n := if glob[0] == STAR && |glob| > 1 && glob[1] == STAR then 2 else 1;
    if i > 0 {
      assert Tokens(glob)[i] == Tokens(glob[n..])[i - 1];
      TokenBytes(glob[n..], i - 1);
      assert forall c :: c in glob[n..] ==> c in glob;
    }
  }

  /** A glob with a byte from 128 on does not match even a shortest path it denotes. */
  lemma NonAsciiGlobMisses(glob: Bytes)
    requires LF !in glob && !IsAscii(glob)
    ensures var path := Sample(AllTokens(glob));
      LF !in path && GlobMatches(glob, path) && !PatternMatches(Compiled(glob), path)
  {
    hide Denotes, Parse, Search, MatchFrom;
    var tokens := AllTokens(glob);
    var path := Sample(tokens);
    AsciiTokens(glob);
    var i :| 0 <= i < |Tokens(glob)| && !Ascii(Tokens(glob)[i]);
    assert tokens[i] == Tokens(glob)[i];
    SampleIsShortest(tokens);
    if LF in path {
      SampleBytes(tokens, LF);
      var k :| 0 <= k < |tokens| && tokens[k] == Char(LF);
      TokenBytes(glob, k);
      assert false;
    }
    CompiledParses(glob);
    var re := AllNodes(tokens) + [End];
    assert [Begin] + AllNodes(tokens) + [End] == [Begin] + re;
    AnchoredSearch(re, path);
    LeastAppend(AllNodes(tokens), [End]);
    if MatchFrom(re, path, 0) {
      MatchTakesLeast(re, path, 0);
      assert false;
    }
  }

  /** So the meaning is kept on all newline-free paths exactly for the ASCII globs. */
  lemma MeaningKeptExactly(glob: Bytes)
    requires LF !in glob
    ensures (forall path :: LF !in path ==> (PatternMatches(Compiled(glob), path) <==> GlobMatches(glob, path)))
       <==> IsAscii(glob)
  {
    hide PatternMatches, GlobMatches, Compiled;
    if !IsAscii(glob) {
      NonAsciiGlobMisses(glob);
    } else {
      forall path | LF !in path ensures PatternMatches(Compiled(glob), path) <==> GlobMatches(glob, path) {
        CompilationKeepsMeaning(glob, path);
      }
    }
  }
}
