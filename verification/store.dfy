/** The append-only body store. */
module Store {
  // Numbered segment files, one self-delimiting frame per message, and a writer that caches its position.

  import opened Base

  const SEGMENT_ROLL_BYTES: nat := 0x4000_0000

  const SEGMENT_OVERFLOW := "segment id overflow"
  const CREATE_FAILED := "create_new failed"
  const READ_FAILED := "read failed"

  datatype Ptr = Ptr(segmentId: nat, offset: nat, length: nat)

  /**
    The segment files together with the writer's fields. `active` is the file the open handle
    writes to; `segmentId` runs ahead of it when a roll fails half-way.
   */
  datatype State = State(segs: map<nat, Bytes>, segmentId: nat, active: nat, position: nat)

  // ----- Opening ------------------------------------------------------------

  function Highest(ids: set<nat>, bound: nat): (h: nat)
    ensures h <= bound
    ensures forall id :: id in ids && id <= bound ==> id <= h
    ensures h in ids || h == 0
  {
    if bound in ids || bound == 0 then bound else Highest(ids, bound - 1)
  }

  /** `open_active_segment`: continue in the highest segment, creating segment 0 in an empty store. */
  function OpenActive(segs: map<nat, Bytes>): State {
    var id := Highest(segs.Keys, U32_MAX);
    var segs' := if id in segs then segs else segs[id := []];
    State(segs', id, id, |segs'[id]|)
  }

  // ----- One append ---------------------------------------------------------

  /** `roll`; `createOk` is whether the file system lets the new file be created. */
  function Roll(s: State, createOk: bool): (Result<nat>, State) {
    if s.segmentId >= U32_MAX then (Err(SEGMENT_OVERFLOW), s)
    else
      var next := s.segmentId + 1;
      if next in s.segs || !createOk then (Err(CREATE_FAILED), s.(segmentId := next))
      else (Ok(next), State(s.segs[next := []], next, next, 0))
  }

  function RollIfFull(s: State, createOk: bool): (Result<nat>, State) {
    if s.position >= SEGMENT_ROLL_BYTES then Roll(s, createOk) else (Ok(s.segmentId), s)
  }

  /** The file is opened for appending, so bytes land at its end whatever `position` says. */
  function Write(s: State, bytes: Bytes): State
    requires s.active in s.segs
  {
    s.(segs := s.segs[s.active := s.segs[s.active] + bytes])
  }

  function Append(codec: Codec<Bytes>, s: State, body: Bytes, createOk: bool): (Result<Ptr>, State)
    requires s.active in s.segs
  {
    var (rolled, s1) := RollIfFull(s, createOk);
    match rolled
    case Err(e) => (Err(e), s1)
    case Ok(_) =>
      var frame := codec.enc(body);
      (Ok(Ptr(s1.segmentId, s1.position, |frame|)), Write(s1, frame).(position := s1.position + |frame|))
  }

  /** A write that stops after `n` bytes of the frame: the bytes stay, the position does not move. */
  function TornAppend(codec: Codec<Bytes>, s: State, body: Bytes, createOk: bool, n: nat): State
    requires s.active in s.segs
  {
    var (rolled, s1) := RollIfFull(s, createOk);
    match rolled
    case Err(_) => s1
    case Ok(_) => Write(s1, codec.enc(body)[..Min(n, |codec.enc(body)|)])
  }

  // ----- Reading ------------------------------------------------------------

  function ReadAt(codec: Codec<Bytes>, segs: map<nat, Bytes>, segmentId: nat, offset: nat): Result<Bytes> {
    if segmentId !in segs || offset > |segs[segmentId]| then Err(READ_FAILED)
    else
      match codec.dec(segs[segmentId][offset..])
      case None => Err(READ_FAILED)
      case Some(body) => Ok(body)
  }

  function Read(codec: Codec<Bytes>, segs: map<nat, Bytes>, ptr: Ptr): Result<Bytes> {
    if ptr.length == 0 then ReadAt(codec, segs, ptr.segmentId, ptr.offset)
    else if ptr.segmentId !in segs || ptr.offset + ptr.length > |segs[ptr.segmentId]| then Err(READ_FAILED)
    else
      match codec.dec(segs[ptr.segmentId][ptr.offset..ptr.offset + ptr.length])
      case None => Err(READ_FAILED)
      case Some(body) => Ok(body)
  }

  // ----- Invariant ----------------------------------------------------------

  datatype Issued = Issued(ptr: Ptr, body: Bytes)

  /** The frame of `body` occupies exactly the range `ptr` names. */
  ghost predicate Holds(codec: Codec<Bytes>, segs: map<nat, Bytes>, it: Issued) {
    && it.ptr.segmentId in segs
    && it.ptr.length == |codec.enc(it.body)|
    && it.ptr.offset + it.ptr.length <= |segs[it.ptr.segmentId]|
    && segs[it.ptr.segmentId][it.ptr.offset..it.ptr.offset + it.ptr.length] == codec.enc(it.body)
  }

  ghost predicate Apart(p: Ptr, q: Ptr) {
    p.segmentId != q.segmentId || p.offset + p.length <= q.offset || q.offset + q.length <= p.offset
  }

  ghost predicate AllApart(issued: seq<Issued>) {
    forall i, j :: 0 <= i < j < |issued| ==> Apart(issued[i].ptr, issued[j].ptr)
  }

  ghost predicate AllHold(codec: Codec<Bytes>, segs: map<nat, Bytes>, issued: seq<Issued>) {
    forall i :: 0 <= i < |issued| ==> Holds(codec, segs, issued[i])
  }

  /** What holds of the files whether or not a writer is open. */
  ghost predicate FilesOk(codec: Codec<Bytes>, segs: map<nat, Bytes>, issued: seq<Issued>) {
    && (forall id :: id in segs ==> id <= U32_MAX)
    && AllHold(codec, segs, issued)
    && AllApart(issued)
  }

  /** What the writer keeps in addition: it writes to the last file and knows its length. */
  ghost predicate WriterOk(s: State) {
    && s.active in s.segs
    && s.position == |s.segs[s.active]|
    && (forall id :: id in s.segs ==> id <= s.active)
    && s.active <= s.segmentId <= U32_MAX
    && (s.position < SEGMENT_ROLL_BYTES ==> s.active == s.segmentId)
  }

  /** Files only grow at their ends and never disappear. */
  ghost predicate Grew(before: map<nat, Bytes>, after: map<nat, Bytes>) {
    forall id :: id in before ==> id in after && before[id] <= after[id]
  }

  lemma GrewTransitive(a: map<nat, Bytes>, b: map<nat, Bytes>, c: map<nat, Bytes>)
    requires Grew(a, b) && Grew(b, c)
    ensures Grew(a, c)
  {
  }

  lemma HoldsAfterGrowth(codec: Codec<Bytes>, before: map<nat, Bytes>, after: map<nat, Bytes>, it: Issued)
    requires Grew(before, after) && Holds(codec, before, it)
    ensures Holds(codec, after, it)
  {
    var id, lo, hi := it.ptr.segmentId, it.ptr.offset, it.ptr.offset + it.ptr.length;
    assert before[id] <= after[id];
    assert after[id][lo..hi] == before[id][lo..hi];
  }

  lemma HeldReadsBack(codec: Codec<Bytes>, segs: map<nat, Bytes>, it: Issued)
    requires SelfDelimiting(codec) && Holds(codec, segs, it)
    ensures ReadAt(codec, segs, it.ptr.segmentId, it.ptr.offset) == Ok(it.body)
    ensures Read(codec, segs, it.ptr) == Ok(it.body)
  {
    var file, frame := segs[it.ptr.segmentId], codec.enc(it.body);
    var rest := file[it.ptr.offset + it.ptr.length..];
    assert file[it.ptr.offset..] == frame + rest;
    assert codec.dec(frame + rest) == Some(it.body);
    assert frame + [] == frame;
    assert codec.dec(frame + []) == Some(it.body);
  }

  lemma OpenKeepsFiles(codec: Codec<Bytes>, segs: map<nat, Bytes>, issued: seq<Issued>)
    requires FilesOk(codec, segs, issued)
    ensures var s := OpenActive(segs); WriterOk(s) && Grew(segs, s.segs) && FilesOk(codec, s.segs, issued)
  {
    var s := OpenActive(segs);
    assert Grew(segs, s.segs);
    forall i | 0 <= i < |issued| ensures Holds(codec, s.segs, issued[i]) {
      HoldsAfterGrowth(codec, segs, s.segs, issued[i]);
    }
  }

  lemma RollKeepsFiles(s: State, createOk: bool)
    requires WriterOk(s)
    ensures var (r, s1) := RollIfFull(s, createOk);
      && WriterOk(s1) && Grew(s.segs, s1.segs)
      && (r.Ok? ==> s1.active == s1.segmentId)
  {
  }

  /** The roll never collides with an existing file: it fails only at the id limit or when creation fails. */
  lemma RollFailsExactly(s: State, createOk: bool)
    requires WriterOk(s)
    ensures Roll(s, createOk).0.Err? <==> s.segmentId == U32_MAX || !createOk
  {
  }

  lemma AppendKeepsAll(codec: Codec<Bytes>, s: State, body: Bytes, createOk: bool, issued: seq<Issued>)
    requires SelfDelimiting(codec) && WriterOk(s) && FilesOk(codec, s.segs, issued)
    ensures var (r, s1) := Append(codec, s, body, createOk);
      && WriterOk(s1) && Grew(s.segs, s1.segs)
      && FilesOk(codec, s1.segs, if r.Ok? then issued + [Issued(r.value, body)] else issued)
  {
    hide Grew, Holds, Apart;
    RollKeepsFiles(s, createOk);
    var (rolled, s1) := RollIfFull(s, createOk);
    GrowAll(codec, s.segs, s1.segs, issued);
    if rolled.Ok? {
      var frame := codec.enc(body);
      var it := Issued(Ptr(s1.segmentId, s1.position, |frame|), body);
      var s2 := Write(s1, frame).(position := s1.position + |frame|);
      FrameAtEnd(codec, s1, body, issued);
      GrewTransitive(s.segs, s1.segs, s2.segs);
      GrowAll(codec, s1.segs, s2.segs, issued);
    }
  }

  /** In numbers: a new segment is begun exactly from one gibibyte on; the frame starts at the offset returned. */
  lemma AppendPointsAt(codec: Codec<Bytes>, s: State, body: Bytes)
    requires WriterOk(s) && s.segmentId < 0xFFFF_FFFF
    ensures var (r, s1) := Append(codec, s, body, true);
      r == Ok(if s.position >= 1_073_741_824 then Ptr(s.segmentId + 1, 0, |codec.enc(body)|)
              else Ptr(s.active, s.position, |codec.enc(body)|))
  {
  }

  /** A pointer of an older version has no length; its frame is read from the offset on. */
  lemma LegacyPointerReads(codec: Codec<Bytes>, segs: map<nat, Bytes>, it: Issued)
    requires SelfDelimiting(codec) && Holds(codec, segs, it)
    ensures Read(codec, segs, Ptr(it.ptr.segmentId, it.ptr.offset, 0)) == Ok(it.body)
  {
    HeldReadsBack(codec, segs, it);
  }

  lemma GrowAll(codec: Codec<Bytes>, before: map<nat, Bytes>, after: map<nat, Bytes>, issued: seq<Issued>)
    requires Grew(before, after) && AllHold(codec, before, issued)
    ensures AllHold(codec, after, issued)
  {
    forall i | 0 <= i < |issued| ensures Holds(codec, after, issued[i]) {
      HoldsAfterGrowth(codec, before, after, issued[i]);
    }
  }

  lemma FrameAtEnd(codec: Codec<Bytes>, s: State, body: Bytes, issued: seq<Issued>)
    requires WriterOk(s) && s.active == s.segmentId && AllHold(codec, s.segs, issued)
    ensures var frame := codec.enc(body);
      var it := Issued(Ptr(s.segmentId, s.position, |frame|), body);
      var after := Write(s, frame).segs;
      && Grew(s.segs, after) && Holds(codec, after, it)
      && forall i :: 0 <= i < |issued| ==> Apart(issued[i].ptr, it.ptr)
  {
    var frame := codec.enc(body);
    var file := s.segs[s.active];
    assert (file + frame)[|file|..|file| + |frame|] == frame;
    forall i | 0 <= i < |issued| ensures Apart(issued[i].ptr, Ptr(s.segmentId, s.position, |frame|)) {
      assert Holds(codec, s.segs, issued[i]);
    }
  }

  lemma TornKeepsFiles(codec: Codec<Bytes>, s: State, body: Bytes, createOk: bool, n: nat, issued: seq<Issued>)
    requires WriterOk(s) && FilesOk(codec, s.segs, issued)
    ensures var s1 := TornAppend(codec, s, body, createOk, n);
      Grew(s.segs, s1.segs) && FilesOk(codec, s1.segs, issued)
  {
    RollKeepsFiles(s, createOk);
    var s1 := TornAppend(codec, s, body, createOk, n);
    assert Grew(s.segs, s1.segs);
    GrowAll(codec, s.segs, s1.segs, issued);
  }

  lemma TornKeepsFilesAlone(codec: Codec<Bytes>, s: State, body: Bytes, createOk: bool, n: nat)
    requires WriterOk(s)
    ensures var s1 := TornAppend(codec, s, body, createOk, n);
      Grew(s.segs, s1.segs) && forall id :: id in s1.segs ==> id <= U32_MAX
  {
    TornKeepsFiles(codec, s, body, createOk, n, []);
  }

  // ----- Runs ---------------------------------------------------------------

  /** What can happen to a store that has one writer. A crash is always followed by a reopen. */
  datatype Op =
    | DoAppend(body: Bytes, createOk: bool)
    | DoFlush
    | DoReopen
    | DoCrash(body: Bytes, createOk: bool, written: nat)

  function Exec(codec: Codec<Bytes>, ops: seq<Op>): (State, seq<Issued>)
    ensures Exec(codec, ops).0.active in Exec(codec, ops).0.segs
  {
    if ops == [] then (OpenActive(map[]), [])
    else
      var (s, issued) := Exec(codec, ops[..|ops| - 1]);
      match ops[|ops| - 1]
      case DoAppend(body, createOk) =>
        var (r, s1) := Append(codec, s, body, createOk);
        (s1, if r.Ok? then issued + [Issued(r.value, body)] else issued)
      case DoFlush => (s, issued)
      case DoReopen => (OpenActive(s.segs), issued)
      case DoCrash(body, createOk, written) =>
        (OpenActive(TornAppend(codec, s, body, createOk, written).segs), issued)
  }

  lemma {:induction false} RunsKeepStore(codec: Codec<Bytes>, ops: seq<Op>)
    requires SelfDelimiting(codec)
    ensures var (s, issued) := Exec(codec, ops); WriterOk(s) && FilesOk(codec, s.segs, issued)
    decreases |ops|
  {
    hide WriterOk, FilesOk, Append, TornAppend, OpenActive;
    if ops == [] {
      OpenKeepsFiles(codec, map[], []);
    } else {
      RunsKeepStore(codec, ops[..|ops| - 1]);
      var (s, issued) := Exec(codec, ops[..|ops| - 1]);
      match ops[|ops| - 1]
      case DoAppend(body, createOk) => AppendKeepsAll(codec, s, body, createOk, issued);
      case DoFlush =>
      case DoReopen => OpenKeepsFiles(codec, s.segs, issued);
      case DoCrash(body, createOk, written) =>
        TornKeepsFiles(codec, s, body, createOk, written, issued);
        OpenKeepsFiles(codec, TornAppend(codec, s, body, createOk, written).segs, issued);
    }
  }

  /**
    Over every run of appends, rolls, flushes, crashes in mid-append and reopens: the cached position
    is the length of the file, and every pointer ever returned names a range of its own that still
    reads back its body.
   */
  lemma EveryPointerReadsBack(codec: Codec<Bytes>, ops: seq<Op>, i: nat)
    requires SelfDelimiting(codec) && i < |Exec(codec, ops).1|
    ensures var (s, issued) := Exec(codec, ops);
      && s.position == |s.segs[s.active]|
      && ReadAt(codec, s.segs, issued[i].ptr.segmentId, issued[i].ptr.offset) == Ok(issued[i].body)
      && Read(codec, s.segs, issued[i].ptr) == Ok(issued[i].body)
      && forall j :: 0 <= j < |issued| && j != i ==> Apart(issued[i].ptr, issued[j].ptr)
  {
    RunsKeepStore(codec, ops);
    var (s, issued) := Exec(codec, ops);
    HeldReadsBack(codec, s.segs, issued[i]);
  }

  /** Pointers are never withdrawn: what a prefix of the run returned is still among the returned. */
  lemma {:induction false} PointersAccumulate(codec: Codec<Bytes>, ops: seq<Op>, n: nat)
    requires n <= |ops|
    ensures Exec(codec, ops[..n]).1 <= Exec(codec, ops).1
    decreases |ops|
  {
    if n == |ops| {
      assert ops[..n] == ops;
    } else {
      PointersAccumulate(codec, ops[..|ops| - 1], n);
      assert ops[..|ops| - 1][..n] == ops[..n];
    }
  }

  /**
    The reopen is needed: a writer that survives its own failed append, rolling first or not, keeps a
    position that equals the file length exactly when not a single byte went out.
   */
  lemma TornWriteWithoutReopen(codec: Codec<Bytes>, s: State, body: Bytes, createOk: bool, n: nat)
    requires SelfDelimiting(codec) && WriterOk(s)
    ensures var s1 := TornAppend(codec, s, body, createOk, n);
      s1.position == |s1.segs[s1.active]| <==> n == 0 || RollIfFull(s, createOk).0.Err?
  {
    assert |codec.enc(body)| > 0;
  }

  /**
    The next append of such a writer returns a pointer to the bytes the failed one left behind, with
    its own frame after them. When these were a whole frame, the pointer reads back the earlier body.
   */
  lemma NextPointerReadsTheTornFrame(codec: Codec<Bytes>, s: State, body: Bytes, createOk: bool, n: nat, next: Bytes)
    requires SelfDelimiting(codec) && WriterOk(s) && RollIfFull(s, createOk).0.Ok?
    ensures var s1 := TornAppend(codec, s, body, createOk, n);
      var (r, s2) := Append(codec, s1, next, true);
      && r.Ok? && r.value.segmentId in s2.segs && r.value.offset <= |s2.segs[r.value.segmentId]|
      && s2.segs[r.value.segmentId][r.value.offset..] == codec.enc(body)[..Min(n, |codec.enc(body)|)] + codec.enc(next)
      && (n >= |codec.enc(body)| ==> ReadAt(codec, s2.segs, r.value.segmentId, r.value.offset) == Ok(body))
  {
    RollKeepsFiles(s, createOk);
    var rolled := RollIfFull(s, createOk).1;
    var torn := codec.enc(body)[..Min(n, |codec.enc(body)|)];
    var s1 := TornAppend(codec, s, body, createOk, n);
    var (r, s2) := Append(codec, s1, next, true);
    var file := rolled.segs[rolled.active];
    assert s1.position == |file| < SEGMENT_ROLL_BYTES;
    assert s2.segs[s1.active] == file + torn + codec.enc(next);
    assert (file + torn + codec.enc(next))[|file|..] == torn + codec.enc(next);
    if n >= |codec.enc(body)| {
      assert torn == codec.enc(body);
      assert codec.dec(codec.enc(body) + codec.enc(next)) == Some(body);
    }
  }

  // ----- The writer object --------------------------------------------------

  /** One list's directory of segment files. */
  class Directory {
    var segs: map<nat, Bytes>

    constructor ()
      ensures segs == map[]
    {
      segs := map[];
    }
  }

  class SegmentWriter {
    const codec: Codec<Bytes>
    const dir: Directory
    var segmentId: nat
    var active: nat
    var position: nat

    ghost function Now(): State
      reads this, dir
    {
      State(dir.segs, segmentId, active, position)
    }

    ghost predicate Valid()
      reads this, dir
    {
      WriterOk(Now())
    }

    constructor (codec: Codec<Bytes>, dir: Directory)
      requires FilesOk(codec, dir.segs, [])
      modifies dir
      ensures this.codec == codec && this.dir == dir
      ensures Valid() && Now() == OpenActive(old(dir.segs))
    {
      this.codec, this.dir := codec, dir;
      var id := Highest(dir.segs.Keys, U32_MAX);
      segmentId, active, position := id, id, if id in dir.segs then |dir.segs[id]| else 0;
      new;
      OpenKeepsFiles(codec, dir.segs, []);
      if id !in dir.segs {
        dir.segs := dir.segs[id := []];
      }
    }

    method RollOver(createOk: bool) returns (r: Result<nat>)
      requires Valid() && position >= SEGMENT_ROLL_BYTES
      modifies this, dir
      ensures Valid()
      ensures (r, Now()) == Roll(old(Now()), createOk)
    {
      if segmentId >= U32_MAX {
        return Err(SEGMENT_OVERFLOW);
      }
      segmentId := segmentId + 1;
      if segmentId in dir.segs || !createOk {
        return Err(CREATE_FAILED);
      }
      dir.segs := dir.segs[segmentId := []];
      active := segmentId;
      position := 0;
      return Ok(segmentId);
    }

    method AppendBody(body: Bytes, createOk: bool) returns (r: Result<Ptr>)
      requires SelfDelimiting(codec) && Valid()
      modifies this, dir
      ensures Valid()
      ensures (r, Now()) == Append(codec, old(Now()), body, createOk)
    {
      AppendKeepsAll(codec, Now(), body, createOk, []);
      if position >= SEGMENT_ROLL_BYTES {
        var rolled := RollOver(createOk);
        if rolled.Err? {
          return Err(rolled.error);
        }
      }
      var frame := codec.enc(body);
      var offset := position;
      dir.segs := dir.segs[active := dir.segs[active] + frame];
      position := position + |frame|;
      return Ok(Ptr(segmentId, offset, |frame|));
    }
  }
}
