/** The trigram tier. */
module Trigram {
  // An in-memory segment builder, the three files it is frozen into, and the candidate searches that
  // run over a reopened segment.

  import opened Base
  import opened QGram
  import opened Sorting
  import opened Text
  import W = Whitespace

  const TRIGRAM_CONFIRM_LIMIT: nat := 4096
  const KEY_SPACE: nat := 0x100_0000

  const NEWLINE_IN_ID := "message_id contains newline"
  const TOO_MANY_DOCS := "segment exceeds u32 docids"
  const OFFSET_OVERFLOW := "posting offset overflow"

  // ----- What a segment should hold -----------------------------------------

  function DocsWith(patches: seq<Bytes>, t: nat): set<nat> {
    set d | 0 <= d < |patches| && t in Trigrams(patches[d])
  }

  function AllTrigrams(patches: seq<Bytes>): set<nat> {
    set d, t | 0 <= d < |patches| && t in Trigrams(patches[d]) :: t
  }

  /** The postings the builder should hold after `add` was called on `patches` in this order. */
  function PostingsOf(patches: seq<Bytes>): map<nat, set<nat>> {
    map t | t in AllTrigrams(patches) :: DocsWith(patches, t)
  }

  function PostingIn(postings: map<nat, set<nat>>, t: nat): set<nat> {
    if t in postings then postings[t] else {}
  }

  lemma PostingsAppend(patches: seq<Bytes>, patch: Bytes, after: map<nat, set<nat>>)
    requires after.Keys == PostingsOf(patches).Keys + Trigrams(patch)
    requires forall t :: t in after ==>
      after[t] == PostingIn(PostingsOf(patches), t) + if t in Trigrams(patch) then {|patches|} else {}
    ensures after == PostingsOf(patches + [patch])
  {
    hide Trigrams;
    var all := patches + [patch];
    forall t ensures t in AllTrigrams(all) <==> t in AllTrigrams(patches) || t in Trigrams(patch) {
      DocsWithAppend(patches, patch, t);
      InSomePatch(patches, t);
      InSomePatch(all, t);
    }
    forall t | t in after ensures after[t] == DocsWith(all, t) {
      DocsWithAppend(patches, patch, t);
      InSomePatch(patches, t);
    }
    assert after.Keys == PostingsOf(all).Keys;
  }

  lemma InSomePatch(patches: seq<Bytes>, t: nat)
    ensures t in AllTrigrams(patches) <==> DocsWith(patches, t) != {}
    ensures PostingIn(PostingsOf(patches), t) == DocsWith(patches, t)
  {
    if DocsWith(patches, t) != {} {
      var d :| d in DocsWith(patches, t);
      assert 0 <= d < |patches| && t in Trigrams(patches[d]);
    }
    if t in AllTrigrams(patches) {
      var d :| 0 <= d < |patches| && t in Trigrams(patches[d]);
      assert d in DocsWith(patches, t);
    }
  }

  lemma DocsWithAppend(patches: seq<Bytes>, patch: Bytes, t: nat)
    ensures DocsWith(patches + [patch], t) == DocsWith(patches, t) + if t in Trigrams(patch) then {|patches|} else {}
  {
    assert (patches + [patch])[|patches|] == patch;
    assert forall d :: 0 <= d < |patches| ==> (patches + [patch])[d] == patches[d];
  }

  // ----- Keys ---------------------------------------------------------------

  /** `u32_be`: the three low bytes, most significant first. */
  function Key(t: nat): (k: Bytes)
    requires t < KEY_SPACE
    ensures |k| == 3 && Pack(k[0], k[1], k[2]) == t
  {
    [t / 0x1_0000, t / 0x100 % 0x100, t % 0x100]
  }

  /** Bytewise key order is numeric order, which is what lets the map be built in one pass. */
  lemma KeyOrder(x: Bytes, y: Bytes)
    requires |x| == 3 && |y| == 3
    ensures LexLt(x, y) <==> Pack(x[0], x[1], x[2]) < Pack(y[0], y[1], y[2])
  {
    assert LexLe(x[3..], y[3..]);
    assert x[1..][1..] == x[2..] && y[1..][1..] == y[2..] && x[2..][1..] == x[3..] && y[2..][1..] == y[3..];
    assert LexLe(x[2..], y[2..]) <==> x[2] <= y[2];
    assert LexLe(x[1..], y[1..]) <==> x[1] < y[1] || (x[1] == y[1] && x[2] <= y[2]);
  }

  lemma TrigramsFitKeys(s: Bytes)
    ensures forall t :: t in Trigrams(s) ==> t < KEY_SPACE
  {
  }

  // ----- Files --------------------------------------------------------------

  datatype FstEntry = FstEntry(key: Bytes, offset: nat)

  datatype SegmentFiles = SegmentFiles(docsTsv: Bytes, postings: Bytes, fst: seq<FstEntry>)

  ghost predicate KeysAscend(fst: seq<FstEntry>) {
    forall i, j :: 0 <= i < j < |fst| ==> LexLt(fst[i].key, fst[j].key)
  }

  function FstGet(fst: seq<FstEntry>, key: Bytes): Option<nat> {
    if fst == [] then None
    else if fst[0].key == key then Some(fst[0].offset)
    else FstGet(fst[1..], key)
  }

  lemma FstGetHit(fst: seq<FstEntry>, i: nat)
    requires KeysAscend(fst) && i < |fst|
    ensures FstGet(fst, fst[i].key) == Some(fst[i].offset)
  {
    if i > 0 {
      FstGetHit(fst[1..], i - 1);
    }
  }

  lemma FstGetMiss(fst: seq<FstEntry>, key: Bytes)
    requires forall i :: 0 <= i < |fst| ==> fst[i].key != key
    ensures FstGet(fst, key) == None
  {
  }

  class SegmentBuilder {
    var postings: map<nat, set<nat>>
    var docs: seq<Bytes>
    ghost var patches: seq<Bytes>

    ghost predicate Valid()
      reads this
    {
      && |docs| == |patches| <= U32_MAX + 1
      && OneLiners(docs)
      && postings == PostingsOf(patches)
    }

    constructor ()
      ensures Valid() && docs == [] && patches == []
    {
      postings, docs, patches := map[], [], [];
    }

    method Add(messageId: Bytes, patch: Bytes) returns (r: Result<nat>)
      requires Valid()
      modifies this
      ensures Valid()
      ensures LF in messageId ==> r == Err(NEWLINE_IN_ID)
      ensures LF !in messageId && |old(docs)| > U32_MAX ==> r == Err(TOO_MANY_DOCS)
      ensures LF !in messageId && |old(docs)| <= U32_MAX ==> r == Ok(|old(docs)|)
      ensures r.Ok? ==> docs == old(docs) + [messageId] && patches == old(patches) + [patch]
      ensures r.Err? ==> docs == old(docs) && patches == old(patches)
    {
      if LF in messageId {
        return Err(NEWLINE_IN_ID);
      }
      if |docs| > U32_MAX {
        return Err(TOO_MANY_DOCS);
      }
      var docid := |docs|;
      ghost var before := postings;
      docs := docs + [messageId];
      var i := 0;
      while i + 3 <= |patch|
        invariant docs == old(docs) + [messageId] && patches == old(patches)
        invariant postings.Keys == before.Keys + Leading(patch, i)
        invariant forall t :: t in postings ==>
          postings[t] == PostingIn(before, t) + if t in Leading(patch, i) then {docid} else {}
      {
        LeadingStep(patch, i);
        if AsciiAt(patch, i) {
          var t := PackAt(patch, i);
          postings := postings[t := PostingIn(postings, t) + {docid}];
        }
        i := i + 1;
      }
      AllLeading(patch, i);
      PostingsAppend(patches, patch, postings);
      patches := patches + [patch];
      return Ok(docid);
    }

    /**
      Writes the files, or nothing for an empty builder. Keys are offered to the map builder in
      ascending order, so its out-of-order error never fires; the only failure is offset overflow.
     */
    method Finalize(codec: Codec<set<nat>>) returns (r: Result<Option<SegmentFiles>>)
      requires Valid() && SelfDelimiting(codec)
      ensures docs == [] ==> r == Ok(None)
      ensures docs != [] && r.Ok? ==> r.value.Some? && Frozen(r.value.value, docs, patches, codec)
      ensures docs != [] && r.Ok? ==> r.value.value.postings == Encoded(codec, postings, Listing(postings.Keys))
      ensures r.Err? <==> docs != [] && |Encoded(codec, postings, Listing(postings.Keys))| > U64_MAX
      ensures r.Err? ==> r.error == OFFSET_OVERFLOW
    {
      if docs == [] {
        return Ok(None);
      }
      PostingsInKeySpace(patches);
      var written := WritePostings(codec, postings);
      if written.Err? {
        return Err(written.error);
      }
      var files := SegmentFiles(Terminated(docs), written.value.0, written.value.1);
      ListingIsAscending(postings.Keys);
      FrozenWhenLaid(files, docs, patches, codec, Listing(postings.Keys));
      return Ok(Some(files));
    }
  }

  /** The loop of `finalize` over the sorted postings. */
  method WritePostings(codec: Codec<set<nat>>, postings: map<nat, set<nat>>) returns (r: Result<(Bytes, seq<FstEntry>)>)
    requires forall t :: t in postings ==> t < KEY_SPACE
    ensures r.Err? <==> |Encoded(codec, postings, Listing(postings.Keys))| > U64_MAX
    ensures r.Err? ==> r.error == OFFSET_OVERFLOW
    ensures r.Ok? ==> r.value.0 == Encoded(codec, postings, Listing(postings.Keys))
    ensures r.Ok? ==> |r.value.1| == |postings| && Laid(codec, postings, Listing(postings.Keys), r.value.0, r.value.1)
  {
    hide *;
    ghost var keys := Listing(postings.Keys);
    LaidEmpty(codec, postings, keys);
    ListingIsAscending(postings.Keys);
    var rest := postings.Keys;
    var bytes: Bytes := [];
    var fst: seq<FstEntry> := [];
    while rest != {}
      invariant |fst| <= |keys| && rest <= postings.Keys && Listing(rest) == keys[|fst|..]
      invariant Laid(codec, postings, keys, bytes, fst) && |bytes| <= U64_MAX
      decreases |keys| - |fst|
    {
      var t := MinOf(rest);
      ghost var n := |fst|;
      ListingHead(rest, keys, n);
      var buf := codec.enc(postings[t]);
      var key := Key(t);
      LaidStep(codec, postings, keys, bytes, fst);
      if fst != [] && !LexLt(fst[|fst| - 1].key, key) {
        return Err("fst insert");
      }
      fst := fst + [FstEntry(key, |bytes|)];
      if |bytes| + |buf| > U64_MAX {
        LaidBytes(codec, postings, keys, bytes + buf, fst);
        EncodedGrows(codec, postings, keys, n + 1);
        return Err(OFFSET_OVERFLOW);
      }
      bytes := bytes + buf;
      rest := rest - {t};
    }
    LaidBytes(codec, postings, keys, bytes, fst);
    ListingEnd(rest, keys, |fst|);
    return Ok((bytes, fst));
  }

  lemma ListingHead(rest: set<nat>, keys: seq<nat>, n: nat)
    requires rest != {} && n <= |keys| && Listing(rest) == keys[n..]
    ensures n < |keys| && keys[n] == MinOf(rest) && Listing(rest - {MinOf(rest)}) == keys[n + 1..]
  {
    assert keys[n..][0] == keys[n];
    assert keys[n..][1..] == keys[n + 1..];
  }

  lemma ListingEnd(rest: set<nat>, keys: seq<nat>, n: nat)
    requires rest == {} && n <= |keys| && Listing(rest) == keys[n..]
    ensures n == |keys| && keys[..n] == keys
  {
    assert |keys[n..]| == 0;
  }

  lemma LaidBytes(codec: Codec<set<nat>>, postings: map<nat, set<nat>>, keys: seq<nat>, bytes: Bytes,
                  fst: seq<FstEntry>)
    requires Laid(codec, postings, keys, bytes, fst)
    ensures bytes == Encoded(codec, postings, keys[..|fst|])
  {
  }

  /** The first `|fst|` of `keys` have been written. */
  ghost predicate Laid(codec: Codec<set<nat>>, postings: map<nat, set<nat>>, keys: seq<nat>, bytes: Bytes,
                       fst: seq<FstEntry>) {
    && |fst| <= |keys|
    && KeysAscend(fst)
    && bytes == Encoded(codec, postings, keys[..|fst|])
    && (forall i :: 0 <= i < |fst| ==> EntryLaid(codec, postings, keys[i], bytes, fst[i]))
  }

  ghost predicate EntryLaid(codec: Codec<set<nat>>, postings: map<nat, set<nat>>, t: nat, bytes: Bytes,
                            entry: FstEntry) {
    t < KEY_SPACE && entry.key == Key(t) && DecodesAt(codec, bytes, entry.offset, PostingIn(postings, t))
  }

  lemma LaidEmpty(codec: Codec<set<nat>>, postings: map<nat, set<nat>>, keys: seq<nat>)
    ensures Laid(codec, postings, keys, [], [])
  {
  }

  lemma LaidStep(codec: Codec<set<nat>>, postings: map<nat, set<nat>>, keys: seq<nat>, bytes: Bytes, fst: seq<FstEntry>)
    requires Laid(codec, postings, keys, bytes, fst) && |fst| < |keys|
    requires Ascending(keys) && keys[|fst|] in postings && keys[|fst|] < KEY_SPACE
    ensures fst != [] ==> LexLt(fst[|fst| - 1].key, Key(keys[|fst|]))
    ensures var key := keys[|fst|];
      Laid(codec, postings, keys, bytes + codec.enc(postings[key]), fst + [FstEntry(Key(key), |bytes|)])
  {
    hide LexLt, LexLe, Key, Encoded, DecodesAt;
    var n, t := |fst|, keys[|fst|];
    var buf := codec.enc(postings[t]);
    forall i | 0 <= i < n ensures LexLt(fst[i].key, Key(t)) {
      assert EntryLaid(codec, postings, keys[i], bytes, fst[i]);
      KeyOrder(Key(keys[i]), Key(t));
    }
    EncodedStep(codec, postings, keys, n);
    forall i | 0 <= i < n ensures EntryLaid(codec, postings, keys[i], bytes + buf, fst[i]) {
      assert EntryLaid(codec, postings, keys[i], bytes, fst[i]);
      DecodesInLonger(codec, bytes, fst[i].offset, PostingIn(postings, keys[i]), buf);
    }
    DecodesAtEnd(codec, bytes, postings[t]);
  }

  lemma LeadingStep(s: Bytes, i: nat)
    requires i + 3 <= |s|
    ensures Leading(s, i + 1) == Leading(s, i) + if AsciiAt(s, i) then {PackAt(s, i)} else {}
  {
  }

  lemma AllLeading(s: Bytes, i: nat)
    requires i + 3 > |s|
    ensures i <= |s| ==> Leading(s, i) == Trigrams(s)
    ensures i > |s| ==> Leading(s, i) == Trigrams(s)
  {
  }

  lemma PostingsInKeySpace(patches: seq<Bytes>)
    ensures forall t :: t in PostingsOf(patches) ==> t < KEY_SPACE
  {
    forall t | t in PostingsOf(patches) ensures t < KEY_SPACE {
      var d :| 0 <= d < |patches| && t in Trigrams(patches[d]);
      TrigramsFitKeys(patches[d]);
    }
  }

  /** The concatenated encodings of the postings under `keys`. */
  function Encoded(codec: Codec<set<nat>>, postings: map<nat, set<nat>>, keys: seq<nat>): Bytes {
    if keys == [] then []
    else Encoded(codec, postings, keys[..|keys| - 1]) + codec.enc(PostingIn(postings, keys[|keys| - 1]))
  }

  lemma EncodedStep(codec: Codec<set<nat>>, postings: map<nat, set<nat>>, keys: seq<nat>, n: nat)
    requires n < |keys| && keys[n] in postings
    ensures Encoded(codec, postings, keys[..n + 1])
      == Encoded(codec, postings, keys[..n]) + codec.enc(postings[keys[n]])
  {
    assert keys[..n + 1][..n] == keys[..n];
  }

  lemma EncodedGrows(codec: Codec<set<nat>>, postings: map<nat, set<nat>>, keys: seq<nat>, n: nat)
    requires n <= |keys|
    ensures |Encoded(codec, postings, keys[..n])| <= |Encoded(codec, postings, keys)|
    decreases |keys| - n
  {
    if n == |keys| {
      assert keys[..n] == keys;
    } else {
      assert keys[..n + 1][..n] == keys[..n];
      EncodedGrows(codec, postings, keys, n + 1);
    }
  }

  ghost predicate DecodesAt(codec: Codec<set<nat>>, bytes: Bytes, offset: nat, posting: set<nat>) {
    offset <= |bytes| && exists rest: Bytes :: bytes[offset..] == codec.enc(posting) + rest
  }

  lemma DecodesInLonger(codec: Codec<set<nat>>, bytes: Bytes, offset: nat, posting: set<nat>, more: Bytes)
    requires DecodesAt(codec, bytes, offset, posting)
    ensures DecodesAt(codec, bytes + more, offset, posting)
  {
    var rest: Bytes :| bytes[offset..] == codec.enc(posting) + rest;
    assert (bytes + more)[offset..] == codec.enc(posting) + (rest + more);
  }

  lemma DecodesAtEnd(codec: Codec<set<nat>>, bytes: Bytes, posting: set<nat>)
    ensures DecodesAt(codec, bytes + codec.enc(posting), |bytes|, posting)
  {
    assert (bytes + codec.enc(posting))[|bytes|..] == codec.enc(posting) + [];
  }

  /** The files of a segment that was built from `docs` and `patches`. */
  ghost predicate Frozen(files: SegmentFiles, docs: seq<Bytes>, patches: seq<Bytes>, codec: Codec<set<nat>>) {
    && files.docsTsv == Terminated(docs)
    && KeysAscend(files.fst)
    && forall t: nat | t < KEY_SPACE :: PostingStored(files, codec, PostingsOf(patches), t)
  }

  /** Looking up `t` finds the offset of its own bitmap, or nothing when no patch has it. */
  ghost predicate PostingStored(files: SegmentFiles, codec: Codec<set<nat>>, postings: map<nat, set<nat>>, t: nat)
    requires t < KEY_SPACE
  {
    match FstGet(files.fst, Key(t))
    case None => t !in postings
    case Some(offset) => t in postings && DecodesAt(codec, files.postings, offset, postings[t])
  }

  lemma FrozenWhenLaid(files: SegmentFiles, docs: seq<Bytes>, patches: seq<Bytes>, codec: Codec<set<nat>>,
                       keys: seq<nat>)
    requires files.docsTsv == Terminated(docs)
    requires |keys| == |files.fst| && Laid(codec, PostingsOf(patches), keys, files.postings, files.fst)
    requires forall t :: t in keys <==> t in PostingsOf(patches)
    ensures Frozen(files, docs, patches, codec)
  {
    hide LexLt, LexLe, DecodesAt, Encoded, DocsWith;
    var postings := PostingsOf(patches);
    forall t: nat | t < KEY_SPACE ensures PostingStored(files, codec, postings, t) {
      if t in keys {
        var i :| 0 <= i < |keys| && keys[i] == t;
        assert EntryLaid(codec, postings, keys[i], files.postings, files.fst[i]);
        FstGetHit(files.fst, i);
      } else {
        forall i | 0 <= i < |files.fst| ensures files.fst[i].key != Key(t) {
          assert EntryLaid(codec, postings, keys[i], files.postings, files.fst[i]);
          assert keys[i] in keys;
        }
        FstGetMiss(files.fst, Key(t));
      }
    }
  }

  // ----- Reading a segment --------------------------------------------------

  datatype SegmentReader = SegmentReader(fst: seq<FstEntry>, postings: Bytes, docs: seq<Bytes>)

  function Open(files: SegmentFiles): SegmentReader {
    SegmentReader(files.fst, files.postings, Lines(files.docsTsv))
  }

  /** `posting_for`: look the key up, then decode one bitmap from the offset on. */
  function PostingFor(codec: Codec<set<nat>>, r: SegmentReader, t: nat): Option<set<nat>>
    requires t < KEY_SPACE
  {
    match FstGet(r.fst, Key(t))
    case None => None
    case Some(offset) => if offset <= |r.postings| then codec.dec(r.postings[offset..]) else None
  }

  /** What a query may rely on: postings and document names are those the segment was built from. */
  ghost predicate Serves(r: SegmentReader, codec: Codec<set<nat>>, docs: seq<Bytes>, patches: seq<Bytes>) {
    && r.docs == docs && |docs| == |patches|
    && forall t: nat | t < KEY_SPACE :: PostingFor(codec, r, t) == Stored(patches, t)
  }

  function Stored(patches: seq<Bytes>, t: nat): Option<set<nat>> {
    if t in PostingsOf(patches) then Some(PostingsOf(patches)[t]) else None
  }

  lemma PostingReadsBack(files: SegmentFiles, docs: seq<Bytes>, patches: seq<Bytes>, codec: Codec<set<nat>>, t: nat)
    requires Frozen(files, docs, patches, codec) && SelfDelimiting(codec) && t < KEY_SPACE
    ensures PostingFor(codec, Open(files), t) == Stored(patches, t)
  {
    assert PostingStored(files, codec, PostingsOf(patches), t);
    match FstGet(files.fst, Key(t))
    case None =>
    case Some(offset) =>
      var posting := PostingsOf(patches)[t];
      var rest: Bytes :| files.postings[offset..] == codec.enc(posting) + rest;
      assert codec.dec(codec.enc(posting) + rest) == Some(posting);
  }

  /**
    Reopening a frozen segment serves exactly what was added, unless a message id ends in a
    carriage return: `docs.tsv` then comes back with other names.
   */
  lemma ReopenServesExactly(files: SegmentFiles, docs: seq<Bytes>, patches: seq<Bytes>, codec: Codec<set<nat>>)
    requires Frozen(files, docs, patches, codec) && SelfDelimiting(codec)
    requires |docs| == |patches| && OneLiners(docs)
    ensures Serves(Open(files), codec, docs, patches)
       <==> forall i :: 0 <= i < |docs| ==> docs[i] == [] || docs[i][|docs[i]| - 1] != CR
  {
    TerminatedRoundTrip(docs);
    forall t: nat | t < KEY_SPACE ensures PostingFor(codec, Open(files), t) == Stored(patches, t) {
      PostingReadsBack(files, docs, patches, codec, t);
    }
  }

  /** The diagnostic iterator packs the three key bytes into the high end of the word, so only 0 survives. */
  function IteratedKey(k: Bytes): nat
    requires |k| == 3
  {
    k[0] as int * 0x100_0000 + k[1] as int * 0x1_0000 + k[2] as int * 0x100
  }

  lemma IteratedKeyIsShifted(t: nat)
    requires t < KEY_SPACE
    ensures IteratedKey(Key(t)) == t * 0x100
    ensures IteratedKey(Key(t)) == t <==> t == 0
  {
  }

  // ----- Candidate search ---------------------------------------------------

  /** Documents that hold every trigram of the needle; none when the needle has no trigram at all. */
  function Matching(patches: seq<Bytes>, needle: Bytes): set<nat> {
    if Trigrams(needle) == {} then {}
    else set d | 0 <= d < |patches| && Trigrams(needle) <= Trigrams(patches[d])
  }

  method CandidateDocids(codec: Codec<set<nat>>, r: SegmentReader, needle: Bytes,
                         ghost docs: seq<Bytes>, ghost patches: seq<Bytes>) returns (acc: set<nat>)
    requires Serves(r, codec, docs, patches)
    ensures acc == Matching(patches, needle)
  {
    hide Trigrams, Serves, PostingFor, Key;
    TrigramsFitKeys(needle);
    var rest := Trigrams(needle);
    if rest == {} {
      return {};
    }
    var first := MinOf(rest);
    PostingMatches(codec, r, docs, patches, first);
    var posting := PostingFor(codec, r, first);
    if posting.None? {
      return {};
    }
    acc := posting.value;
    rest := rest - {first};
    while rest != {}
      invariant rest <= Trigrams(needle)
      invariant acc == Holding(patches, Trigrams(needle) - rest)
      decreases |rest|
    {
      var t := MinOf(rest);
      PostingMatches(codec, r, docs, patches, t);
      posting := PostingFor(codec, r, t);
      if posting.None? {
        return {};
      }
      assert Trigrams(needle) - (rest - {t}) == (Trigrams(needle) - rest) + {t};
      acc := acc * posting.value;
      if acc == {} {
        HoldingShrinks(patches, (Trigrams(needle) - rest) + {t}, Trigrams(needle));
        return acc;
      }
      rest := rest - {t};
    }
    assert Trigrams(needle) - rest == Trigrams(needle);
  }

  function Holding(patches: seq<Bytes>, wanted: set<nat>): set<nat> {
    set d | 0 <= d < |patches| && wanted <= Trigrams(patches[d])
  }

  lemma HoldingShrinks(patches: seq<Bytes>, some: set<nat>, all: set<nat>)
    requires some <= all
    ensures Holding(patches, all) <= Holding(patches, some)
  {
  }

  lemma PostingMatches(codec: Codec<set<nat>>, r: SegmentReader, docs: seq<Bytes>, patches: seq<Bytes>, t: nat)
    requires Serves(r, codec, docs, patches) && t < KEY_SPACE
    ensures PostingFor(codec, r, t).None? ==> forall d :: 0 <= d < |patches| ==> t !in Trigrams(patches[d])
    ensures PostingFor(codec, r, t).Some? ==> PostingFor(codec, r, t).value == DocsWith(patches, t)
  {
    assert PostingFor(codec, r, t) == Stored(patches, t);
  }

  // ----- Fuzzy candidate search ---------------------------------------------

  function Shared(patches: seq<Bytes>, needle: Bytes, d: nat): nat
    requires d < |patches|
  {
    |Trigrams(needle) * Trigrams(patches[d])|
  }

  /** `max(1, n - 3 * k)`, with the subtraction stopping at 0. */
  function Threshold(needle: Bytes, k: nat): nat {
    var n := |Trigrams(needle)|;
    if n > 3 * k then n - 3 * k else 1
  }

  /** The documents that reach the threshold. */
  function Qualifying(patches: seq<Bytes>, needle: Bytes, k: nat): set<nat> {
    set d | 0 <= d < |patches| && Shared(patches, needle, d) >= Threshold(needle, k)
  }

  /** More shared trigrams first, then the lower docid. */
  function Better(patches: seq<Bytes>, needle: Bytes): (nat, nat) -> bool {
    (a: nat, b: nat) => var x, y := Score(patches, needle, a), Score(patches, needle, b); x > y || (x == y && a <= b)
  }

  function Score(patches: seq<Bytes>, needle: Bytes, d: nat): nat {
    if d < |patches| then Shared(patches, needle, d) else 0
  }

  function Ranked(patches: seq<Bytes>, needle: Bytes, k: nat): seq<nat> {
    Sort(Listing(Qualifying(patches, needle, k)), Better(patches, needle))
  }

  /** `filter_map` over `docs.get`. */
  function Names(docs: seq<Bytes>, ids: seq<nat>): (r: seq<Bytes>)
    ensures forall d :: d in ids && d < |docs| ==> docs[d] in r
    ensures forall x :: x in r ==> exists d :: d in ids && d < |docs| && docs[d] == x
  {
    if ids == [] then []
    else (if ids[0] < |docs| then [docs[ids[0]]] else []) + Names(docs, ids[1..])
  }

  /** What `candidates_for_substring_fuzzy` returns for a segment holding these documents. */
  function Candidates(docs: seq<Bytes>, patches: seq<Bytes>, needle: Bytes, k: nat): seq<Bytes> {
    if |needle| < 3 then docs
    else if k == 0 then Names(docs, Take(Listing(Matching(patches, needle)), TRIGRAM_CONFIRM_LIMIT))
    else if Trigrams(needle) == {} then docs
    else Sort(Names(docs, Take(Ranked(patches, needle, k), TRIGRAM_CONFIRM_LIMIT)), LEX)
  }

  /** How many of the trigrams in `wanted` each document holds; documents with none are absent. */
  function Tally(patches: seq<Bytes>, wanted: set<nat>): map<nat, nat> {
    map d | 0 <= d < |patches| && wanted * Trigrams(patches[d]) != {} :: |wanted * Trigrams(patches[d])|
  }

  lemma TallyStep(patches: seq<Bytes>, wanted: set<nat>, t: nat, counts: map<nat, nat>)
    requires t !in wanted
    requires counts.Keys == Tally(patches, wanted).Keys + DocsWith(patches, t)
    requires forall d :: d in counts ==>
      counts[d] == TallyAt(patches, wanted, d) + if d in DocsWith(patches, t) then 1 else 0
    ensures counts == Tally(patches, wanted + {t})
  {
    hide Trigrams;
    var next := Tally(patches, wanted + {t});
    forall d: nat | d < |patches|
      ensures d in next <==> d in counts
      ensures d in counts ==> next[d] == counts[d]
    {
      MeetStep(wanted, t, Trigrams(patches[d]));
    }
    assert next.Keys == counts.Keys;
  }

  lemma MeetStep(wanted: set<nat>, t: nat, p: set<nat>)
    requires t !in wanted
    ensures |(wanted + {t}) * p| == |wanted * p| + if t in p then 1 else 0
    ensures (wanted + {t}) * p != {} <==> wanted * p != {} || t in p
  {
    if t in p {
      assert (wanted + {t}) * p == wanted * p + {t};
    } else {
      assert (wanted + {t}) * p == wanted * p;
    }
  }

  function TallyAt(patches: seq<Bytes>, wanted: set<nat>, d: nat): nat {
    if d in Tally(patches, wanted) then Tally(patches, wanted)[d] else 0
  }

  method CountShared(codec: Codec<set<nat>>, r: SegmentReader, needle: Bytes,
                     ghost docs: seq<Bytes>, ghost patches: seq<Bytes>) returns (counts: map<nat, nat>)
    requires Serves(r, codec, docs, patches)
    ensures counts == Tally(patches, Trigrams(needle))
  {
    hide Trigrams, Serves, PostingFor, Key;
    TrigramsFitKeys(needle);
    counts := map[];
    var rest := Trigrams(needle);
    while rest != {}
      invariant rest <= Trigrams(needle)
      invariant counts == Tally(patches, Trigrams(needle) - rest)
      decreases |rest|
    {
      var t := MinOf(rest);
      ghost var done := Trigrams(needle) - rest;
      PostingMatches(codec, r, docs, patches, t);
      var posting := PostingFor(codec, r, t);
      if posting.Some? {
        counts := AddOnes(counts, posting.value);
      }
      TallyStep(patches, done, t, counts);
      assert Trigrams(needle) - (rest - {t}) == done + {t};
      rest := rest - {t};
    }
    assert Trigrams(needle) - rest == Trigrams(needle);
  }

  function GetOr(counts: map<nat, nat>, d: nat): nat {
    if d in counts then counts[d] else 0
  }

  /** `r` is `counts` with one added for each of `docids`. */
  ghost predicate Bumped(counts: map<nat, nat>, r: map<nat, nat>, docids: set<nat>) {
    && r.Keys == counts.Keys + docids
    && forall d :: d in r ==> r[d] == GetOr(counts, d) + if d in docids then 1 else 0
  }

  lemma BumpedBegin(counts: map<nat, nat>)
    ensures Bumped(counts, counts, {})
  {
  }

  lemma BumpOne(counts: map<nat, nat>, r: map<nat, nat>, docids: set<nat>, d: nat)
    requires Bumped(counts, r, docids) && d !in docids
    ensures Bumped(counts, r[d := GetOr(r, d) + 1], docids + {d})
  {
  }

  /** `*counts.entry(docid).or_default() += 1` for every docid of one bitmap. */
  method AddOnes(counts: map<nat, nat>, docids: set<nat>) returns (r: map<nat, nat>)
    ensures Bumped(counts, r, docids)
  {
    hide *;
    r := counts;
    var rest := docids;
    BumpedBegin(counts);
    assert docids - rest == {};
    while rest != {}
      invariant rest <= docids && Bumped(counts, r, docids - rest)
      decreases |rest|
    {
      var d := MinOf(rest);
      BumpOne(counts, r, docids - rest, d);
      assert docids - (rest - {d}) == (docids - rest) + {d};
      r := r[d := GetOr(r, d) + 1];
      rest := rest - {d};
    }
    assert docids - rest == docids;
  }

  method CandidatesForSubstringFuzzy(codec: Codec<set<nat>>, r: SegmentReader, needle: Bytes, fuzzyEdits: nat,
                                     ghost docs: seq<Bytes>, ghost patches: seq<Bytes>) returns (out: seq<Bytes>)
    requires fuzzyEdits <= U32_MAX
    requires Serves(r, codec, docs, patches)
    ensures out == Candidates(docs, patches, needle, fuzzyEdits)
  {
    hide Trigrams, Serves, Listing, Sort, Names, Matching, Ranked, Tally, RankCounts;
    ServesNames(codec, r, docs, patches);
    if |needle| < 3 {
      return r.docs;
    }
    if fuzzyEdits == 0 {
      var bitmap := CandidateDocids(codec, r, needle, docs, patches);
      return Names(r.docs, Take(Listing(bitmap), TRIGRAM_CONFIRM_LIMIT));
    }
    var trigrams := Trigrams(needle);
    if trigrams == {} {
      return r.docs;
    }
    var threshold := if |trigrams| > 3 * fuzzyEdits then |trigrams| - 3 * fuzzyEdits else 1;
    var counts := CountShared(codec, r, needle, docs, patches);
    var ranked := RankCounts(counts, threshold);
    RankedByCounts(patches, needle, fuzzyEdits);
    return Sort(Names(r.docs, Take(ranked, TRIGRAM_CONFIRM_LIMIT)), LEX);
  }

  lemma ServesNames(codec: Codec<set<nat>>, r: SegmentReader, docs: seq<Bytes>, patches: seq<Bytes>)
    requires Serves(r, codec, docs, patches)
    ensures r.docs == docs
  {
  }

  /** Drop what is below the threshold, then sort by count descending and docid ascending. */
  function RankCounts(counts: map<nat, nat>, threshold: nat): seq<nat> {
    Sort(Listing(AtLeast(counts, threshold)), ByCount(counts))
  }

  function AtLeast(counts: map<nat, nat>, threshold: nat): set<nat> {
    set d | d in counts && counts[d] >= threshold
  }

  function ByCount(counts: map<nat, nat>): (nat, nat) -> bool {
    (a: nat, b: nat) => GetOr(counts, a) > GetOr(counts, b) || (GetOr(counts, a) == GetOr(counts, b) && a <= b)
  }

  lemma RankedByCounts(patches: seq<Bytes>, needle: Bytes, k: nat)
    ensures RankCounts(Tally(patches, Trigrams(needle)), Threshold(needle, k)) == Ranked(patches, needle, k)
  {
    hide Trigrams;
    var counts := Tally(patches, Trigrams(needle));
    TallyQualifies(patches, needle, k);
    assert forall a: nat, b: nat :: ByCount(counts)(a, b) == Better(patches, needle)(a, b);
    SortByEqualOrders(Listing(Qualifying(patches, needle, k)), ByCount(counts), Better(patches, needle));
  }

  lemma TallyQualifies(patches: seq<Bytes>, needle: Bytes, k: nat)
    ensures var counts := Tally(patches, Trigrams(needle));
      && AtLeast(counts, Threshold(needle, k)) == Qualifying(patches, needle, k)
      && forall d: nat :: GetOr(counts, d) == Score(patches, needle, d)
  {
    var counts := Tally(patches, Trigrams(needle));
    forall d: nat ensures GetOr(counts, d) == Score(patches, needle, d) {
      if d < |patches| && Trigrams(needle) * Trigrams(patches[d]) == {} {
        assert Score(patches, needle, d) == 0;
      }
    }
  }

  lemma SortByEqualOrders<T(!new)>(s: seq<T>, le: (T, T) -> bool, le': (T, T) -> bool)
    requires forall a, b :: le(a, b) == le'(a, b)
    ensures Sort(s, le) == Sort(s, le')
  {
    if s != [] {
      SortByEqualOrders(s[..|s| - 1], le, le');
      InsertByEqualOrders(s[|s| - 1], Sort(s[..|s| - 1], le), le, le');
    }
  }

  lemma InsertByEqualOrders<T(!new)>(x: T, s: seq<T>, le: (T, T) -> bool, le': (T, T) -> bool)
    requires forall a, b :: le(a, b) == le'(a, b)
    ensures Insert(x, s, le) == Insert(x, s, le')
  {
  }

  // ----- What the searches promise ------------------------------------------

  lemma ContainsImpliesMatching(patches: seq<Bytes>, needle: Bytes, d: nat)
    requires d < |patches| && Occurs(needle, patches[d]) && Trigrams(needle) != {}
    ensures d in Matching(patches, needle)
  {
    TrigramsOfSubstring(needle, patches[d]);
  }

  /** The exact path loses a document that holds the needle only when the needle has no ASCII window. */
  lemma ExactSearchMissesNothingExactly(needle: Bytes)
    ensures (forall patches: seq<Bytes>, d: nat :: d < |patches| && Occurs(needle, patches[d]) ==>
      d in Matching(patches, needle))
       <==> Trigrams(needle) != {}
  {
    if Trigrams(needle) == {} {
      var patches := [needle];
      assert OccursAt(needle, patches[0], 0);
      assert 0 !in Matching(patches, needle);
    } else {
      forall patches: seq<Bytes>, d: nat | d < |patches| && Occurs(needle, patches[d])
        ensures d in Matching(patches, needle)
      {
        ContainsImpliesMatching(patches, needle, d);
      }
    }
  }

  lemma RankedIsQualifying(patches: seq<Bytes>, needle: Bytes, k: nat, d: nat)
    ensures d in Ranked(patches, needle, k) <==> d in Qualifying(patches, needle, k)
    ensures |Ranked(patches, needle, k)| == |Qualifying(patches, needle, k)|
  {
    var q := Qualifying(patches, needle, k);
    ListingIsAscending(q);
    SortMember(Listing(q), Better(patches, needle), d);
    SortPermutes(Listing(q), Better(patches, needle));
  }

  /** When the cap cuts, no dropped document shares more trigrams than a kept one, or as many under a lower number. */
  lemma CapKeepsTheBest(patches: seq<Bytes>, needle: Bytes, k: nat, kept: nat, dropped: nat)
    requires var ranked := Ranked(patches, needle, k);
      && kept in Take(ranked, TRIGRAM_CONFIRM_LIMIT)
      && dropped in ranked && dropped !in Take(ranked, TRIGRAM_CONFIRM_LIMIT)
    ensures |Qualifying(patches, needle, k)| > TRIGRAM_CONFIRM_LIMIT
    ensures kept < |patches| && dropped < |patches|
    ensures |Trigrams(needle) * Trigrams(patches[kept])| >= |Trigrams(needle) * Trigrams(patches[dropped])|
    ensures |Trigrams(needle) * Trigrams(patches[kept])| == |Trigrams(needle) * Trigrams(patches[dropped])| ==>
      kept < dropped
  {
    hide Trigrams, Threshold;
    var ranked, better := Ranked(patches, needle, k), Better(patches, needle);
    RankedIsQualifying(patches, needle, k, dropped);
    RankedIsQualifying(patches, needle, k, kept);
    BetterIsTotal(patches, needle);
    SortSorts(Listing(Qualifying(patches, needle, k)), better);
    var i :| 0 <= i < |Take(ranked, TRIGRAM_CONFIRM_LIMIT)| && Take(ranked, TRIGRAM_CONFIRM_LIMIT)[i] == kept;
    var j :| 0 <= j < |ranked| && ranked[j] == dropped;
    TakeHolds(ranked, TRIGRAM_CONFIRM_LIMIT, j);
    assert better(ranked[i], ranked[j]);
  }

  lemma BetterIsTotal(patches: seq<Bytes>, needle: Bytes)
    ensures TotalPreorder(Better(patches, needle))
  {
  }

  lemma SortedNames(docs: seq<Bytes>, ids: seq<nat>, d: nat)
    requires d in ids && d < |docs|
    ensures docs[d] in Sort(Names(docs, ids), LEX)
  {
    SortMember(Names(docs, ids), LEX, docs[d]);
  }

  /**
    Every id the query returns on the counting path names a document that shares at least one and at least
    `n - 3 k` of the needle's `n` trigrams; and unless the cap cuts, every such document is returned.
   */
  lemma ReturnedShareEnough(docs: seq<Bytes>, patches: seq<Bytes>, needle: Bytes, k: nat)
    requires |needle| >= 3 && k > 0 && Trigrams(needle) != {}
    ensures forall x :: x in Candidates(docs, patches, needle, k) ==> exists d: nat ::
      && d < |docs| && docs[d] == x && d < |patches|
      && |Trigrams(needle) * Trigrams(patches[d])| >= 1
      && |Trigrams(needle) * Trigrams(patches[d])| + 3 * k >= |Trigrams(needle)|
    ensures |Qualifying(patches, needle, k)| <= 4096 ==> forall d: nat ::
      && d < |docs| && d < |patches| && |Trigrams(needle) * Trigrams(patches[d])| >= 1
      && |Trigrams(needle) * Trigrams(patches[d])| + 3 * k >= |Trigrams(needle)|
      ==> docs[d] in Candidates(docs, patches, needle, k)
  {
    hide Trigrams, Ranked;
    var ranked := Ranked(patches, needle, k);
    var ids := Take(ranked, TRIGRAM_CONFIRM_LIMIT);
    forall x | x in Candidates(docs, patches, needle, k)
      ensures exists d: nat :: d < |docs| && docs[d] == x && d in Qualifying(patches, needle, k)
    {
      SortMember(Names(docs, ids), LEX, x);
      var d :| d in ids && d < |docs| && docs[d] == x;
      assert d in ranked;
      RankedIsQualifying(patches, needle, k, d);
    }
    if |Qualifying(patches, needle, k)| <= TRIGRAM_CONFIRM_LIMIT {
      forall d: nat | d < |docs| && d in Qualifying(patches, needle, k)
        ensures docs[d] in Candidates(docs, patches, needle, k)
      {
        QualifyingIsReturned(docs, patches, needle, k, d);
      }
    }
  }

  lemma {:induction false} NamesCount(docs: seq<Bytes>, ids: seq<nat>)
    requires forall i :: 0 <= i < |ids| ==> ids[i] < |docs|
    ensures |Names(docs, ids)| == |ids|
    decreases |ids|
  {
    if ids != [] {
      NamesCount(docs, ids[1..]);
    }
  }

  /** The cap in numbers: all that qualify are returned, or 4096 of them. */
  lemma CapIs4096(docs: seq<Bytes>, patches: seq<Bytes>, needle: Bytes, k: nat)
    requires |docs| == |patches| && |needle| >= 3 && (k > 0 ==> Trigrams(needle) != {})
    ensures var n := if k == 0 then |Matching(patches, needle)| else |Qualifying(patches, needle, k)|;
      |Candidates(docs, patches, needle, k)| == if n <= 4096 then n else 4096
  {
    hide Trigrams, Threshold;
    if k == 0 {
      var all := Listing(Matching(patches, needle));
      ListingIsAscending(Matching(patches, needle));
      forall i | 0 <= i < |all| ensures all[i] < |docs| {
        assert all[i] in all;
      }
      NamesCount(docs, Take(all, TRIGRAM_CONFIRM_LIMIT));
    } else {
      var all := Ranked(patches, needle, k);
      RankedIsQualifying(patches, needle, k, 0);
      forall i | 0 <= i < |all| ensures all[i] < |docs| {
        assert all[i] in all;
        RankedIsQualifying(patches, needle, k, all[i]);
      }
      NamesCount(docs, Take(all, TRIGRAM_CONFIRM_LIMIT));
      SortPermutes(Names(docs, Take(all, TRIGRAM_CONFIRM_LIMIT)), LEX);
    }
  }

  /** Unless the cap cuts, a document that reaches the threshold is returned. */
  lemma QualifyingIsReturned(docs: seq<Bytes>, patches: seq<Bytes>, needle: Bytes, k: nat, d: nat)
    requires |needle| >= 3 && k > 0 && Trigrams(needle) != {}
    requires d < |docs| && d in Qualifying(patches, needle, k)
    requires |Qualifying(patches, needle, k)| <= TRIGRAM_CONFIRM_LIMIT
    ensures docs[d] in Candidates(docs, patches, needle, k)
  {
    hide Qualifying, Ranked;
    RankedIsQualifying(patches, needle, k, d);
    assert Take(Ranked(patches, needle, k), TRIGRAM_CONFIRM_LIMIT) == Ranked(patches, needle, k);
    SortedNames(docs, Ranked(patches, needle, k), d);
  }

  /**
    A document within `k` edits shares at least `n - 3 * k` trigrams, and at least one while `k` is below
    the cover.
   */
  lemma NearImpliesQualifying(patches: seq<Bytes>, needle: Bytes, k: nat, d: nat)
    requires d < |patches| && Near(needle, patches[d], k) && k < Cover(needle)
    ensures d in Qualifying(patches, needle, k)
  {
    SharedTrigrams(needle, patches[d], k);
    SharingIsGuaranteedExactly(needle, k);
  }

  /** The documents the cap chooses from. */
  function Contenders(patches: seq<Bytes>, needle: Bytes, k: nat): set<nat> {
    if k == 0 then Matching(patches, needle) else Qualifying(patches, needle, k)
  }

  ghost predicate NothingMissed(needle: Bytes, k: nat) {
    forall docs: seq<Bytes>, patches: seq<Bytes>, d: nat ::
      d < |docs| == |patches| && Near(needle, patches[d], k)
        && |Contenders(patches, needle, k)| <= TRIGRAM_CONFIRM_LIMIT
      ==> docs[d] in Candidates(docs, patches, needle, k)
  }

  lemma {:induction false} NoEditsMeansEqual(a: Bytes, b: Bytes)
    requires Lev(a, b) == 0
    ensures a == b
    decreases |a|
  {
    if a != [] && b != [] {
      NoEditsMeansEqual(a[1..], b[1..]);
      assert a == [a[0]] + a[1..] && b == [b[0]] + b[1..];
    }
  }

  /** Without edits the query takes the exact path, which cuts in document order. */
  lemma MatchingIsReturned(docs: seq<Bytes>, patches: seq<Bytes>, needle: Bytes, d: nat)
    requires |needle| >= 3 && d < |docs| == |patches| && Near(needle, patches[d], 0) && Trigrams(needle) != {}
    requires |Matching(patches, needle)| <= TRIGRAM_CONFIRM_LIMIT
    ensures docs[d] in Candidates(docs, patches, needle, 0)
  {
    var sub: Bytes :| Occurs(sub, patches[d]) && Lev(needle, sub) <= 0;
    NoEditsMeansEqual(needle, sub);
    ContainsImpliesMatching(patches, needle, d);
    ListingIsAscending(Matching(patches, needle));
    assert Take(Listing(Matching(patches, needle)), TRIGRAM_CONFIRM_LIMIT) == Listing(Matching(patches, needle));
  }

  lemma NoTrigramMissesItself(needle: Bytes)
    requires |needle| >= 3 && Trigrams(needle) == {}
    ensures Near(needle, needle, 0) && Contenders([needle], needle, 0) == {}
    ensures Candidates([[]], [needle], needle, 0) == []
  {
    LevSame(needle);
    assert OccursAt(needle, needle, 0);
  }

  lemma NothingMatchesNoTrigram(needle: Bytes)
    requires |needle| >= 3 && Trigrams(needle) == {}
    ensures !NothingMissed(needle, 0)
  {
    var docs, patches := [[]], [needle];
    NoTrigramMissesItself(needle);
    assert docs[0] !in Candidates(docs, patches, needle, 0);
  }

  /**
    A search returns every document within `k` edits (cap permitting) exactly when `k` is below the
    needle's cover; or the needle has fewer than three bytes, or no trigram and edits are allowed, and
    every document is returned anyway.
   */
  lemma FuzzySearchMissesNothingExactly(needle: Bytes, k: nat)
    ensures NothingMissed(needle, k) <==> |needle| < 3 || k < Cover(needle) || (k > 0 && Trigrams(needle) == {})
  {
    CoverIsPositiveExactly(needle);
    if |needle| < 3 || (k > 0 && Trigrams(needle) == {}) {
    } else if k < Cover(needle) {
      forall docs: seq<Bytes>, patches: seq<Bytes>, d: nat
        | d < |docs| == |patches| && Near(needle, patches[d], k)
          && |Contenders(patches, needle, k)| <= TRIGRAM_CONFIRM_LIMIT
        ensures docs[d] in Candidates(docs, patches, needle, k)
      {
        if k == 0 {
          MatchingIsReturned(docs, patches, needle, d);
        } else {
          NearImpliesQualifying(patches, needle, k, d);
          QualifyingIsReturned(docs, patches, needle, k, d);
        }
      }
    } else if k == 0 {
      NothingMatchesNoTrigram(needle);
    } else {
      SpoiledDocumentIsMissed(needle, k);
    }
  }

  /** The one document of an index that holds the spoiled needle. */
  lemma SpoiledIsLeftOut(needle: Bytes, k: nat, c: Byte)
    requires k > 0 && |needle| >= 3 && Trigrams(needle) != {} && k >= Cover(needle) && (c >= 0x80 || c !in needle)
    ensures var patches := [Spoil(needle, c)];
      Near(needle, patches[0], k) && Contenders(patches, needle, k) == {} && Candidates([[]], patches, needle, k) == []
  {
    var patches := [Spoil(needle, c)];
    SpoilIsNear(needle, c);
    SpoilSharesNoTrigram(needle, c);
    assert OccursAt(patches[0], patches[0], 0);
    assert Trigrams(needle) * Trigrams(patches[0]) == {};
    assert Qualifying(patches, needle, k) == {};
    assert Ranked(patches, needle, k) == [];
  }

  lemma SpoiledDocumentIsMissed(needle: Bytes, k: nat)
    requires k > 0 && |needle| >= 3 && Trigrams(needle) != {} && k >= Cover(needle)
    ensures !NothingMissed(needle, k)
  {
    var docs, patches := [[]], [Spoil(needle, 0xFF)];
    SpoiledIsLeftOut(needle, k, 0xFF);
    assert docs[0] !in Candidates(docs, patches, needle, k);
  }

  // ----- Indexes of text ----------------------------------------------------

  /** The patches of an index are parts of mails, so they are text in UTF-8. */
  ghost predicate AllText(patches: seq<Bytes>) {
    forall i :: 0 <= i < |patches| ==> W.IsText(patches[i])
  }

  ghost predicate NothingMissedInText(needle: Bytes, k: nat) {
    forall docs: seq<Bytes>, patches: seq<Bytes>, d: nat ::
      d < |docs| == |patches| && AllText(patches)
      && Near(needle, patches[d], k) && |Contenders(patches, needle, k)| <= TRIGRAM_CONFIRM_LIMIT
      ==> docs[d] in Candidates(docs, patches, needle, k)
  }

  lemma SpoiledIsText(needle: Bytes, c: Byte)
    requires W.IsText(needle) && c < 0x80
    ensures W.IsText(Spoil(needle, c))
  {
    var chars: seq<Bytes> :| W.AllChars(chars) && Concat<Byte>(chars) == needle;
    W.AsciiSwapKeepsText(chars, Spoil(needle, c));
  }

  /**
    The same over indexes of UTF-8 text, for a needle that is text and lacks some ASCII character: what
    is missed can be a text like any other, with that character in place of a few of the needle's.
   */
  lemma TextSearchMissesNothingExactly(needle: Bytes, k: nat, c: Byte)
    requires W.IsText(needle) && c < 0x80 && c !in needle
    ensures NothingMissedInText(needle, k) <==> |needle| < 3 || k < Cover(needle) || (k > 0 && Trigrams(needle) == {})
  {
    FuzzySearchMissesNothingExactly(needle, k);
    CoverIsPositiveExactly(needle);
    if NothingMissed(needle, k) {
    } else if k == 0 {
      NoTrigramMissesItself(needle);
      var docs, patches := [[]], [needle];
      assert AllText(patches) && docs[0] !in Candidates(docs, patches, needle, 0);
    } else {
      SpoiledIsLeftOut(needle, k, c);
      SpoiledIsText(needle, c);
      var docs, patches := [[]], [Spoil(needle, c)];
      assert AllText(patches) && docs[0] !in Candidates(docs, patches, needle, k);
    }
  }

  /** The documented condition, strictly more than `3 * k` distinct trigrams, is sufficient. */
  lemma ManyTrigramsSuffice(needle: Bytes, k: nat)
    requires |Trigrams(needle)| > 3 * k
    ensures NothingMissed(needle, k)
  {
    TrigramsWithinCover(needle);
    FuzzySearchMissesNothingExactly(needle, k);
  }

  /** It is not necessary: ten equal letters have one trigram, yet no single edit wipes it out. */
  lemma ManyTrigramsNotNeeded()
    ensures var needle: Bytes := [97, 97, 97, 97, 97, 97, 97, 97, 97, 97];
            |Trigrams(needle)| == 1 && NothingMissed(needle, 1)
  {
    var needle: Bytes := [97, 97, 97, 97, 97, 97, 97, 97, 97, 97];
    assert Trigrams(needle) == {PackAt(needle, 0)} by {
      assert AsciiAt(needle, 0);
    }
    assert Cover(needle) == 3 by {
      assert needle[3..] == [97, 97, 97, 97, 97, 97, 97] && needle[3..][3..] == [97, 97, 97, 97]
        && needle[3..][3..][3..] == [97];
    }
    FuzzySearchMissesNothingExactly(needle, 1);
  }
}
