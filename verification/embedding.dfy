/** The embedding tier: the row layout of the vector file, and the bounded-heap search for the nearest. */
module Embedding {
  import opened Base
  import opened Sorting
  import opened Text

  // ----- Rows of the vector file --------------------------------------------

  /** One 32-bit float, by its bit pattern. */
  type Bits = b: int | 0 <= b <= 0xFFFF_FFFF

  function LittleEndian(b: Bits): (r: Bytes)
    ensures |r| == 4
  {
    [b % 256, b / 256 % 256, b / 256 / 256 % 256, b / 256 / 256 / 256]
  }

  function FromLittleEndian(s: Bytes): int
    requires |s| == 4
  {
    (s[0] as int) + 256 * ((s[1] as int) + 256 * ((s[2] as int) + 256 * (s[3] as int)))
  }

  lemma FloatRoundTrip(b: Bits)
    ensures FromLittleEndian(LittleEndian(b)) == b
  {
    var q := b / 256;
    var r := q / 256;
    assert b == 256 * q + b % 256 && q == 256 * r + q % 256 && r == 256 * (r / 256) + r % 256;
  }

  function Packed(vector: seq<Bits>): (r: Bytes)
    ensures |r| == 4 * |vector|
  {
    if vector == [] then [] else Packed(vector[..|vector| - 1]) + LittleEndian(vector[|vector| - 1])
  }

  function AllPacked(vectors: seq<seq<Bits>>): Bytes {
    if vectors == [] then [] else AllPacked(vectors[..|vectors| - 1]) + Packed(vectors[|vectors| - 1])
  }

  lemma {:induction false} PackedAt(vector: seq<Bits>, j: nat)
    requires j < |vector|
    ensures Packed(vector)[4 * j..4 * j + 4] == LittleEndian(vector[j])
    decreases |vector|
  {
    var front := vector[..|vector| - 1];
    if j < |front| {
      PackedAt(front, j);
      assert Packed(vector)[4 * j..4 * j + 4] == Packed(front)[4 * j..4 * j + 4];
    }
  }

  ghost predicate AllOfDim(vectors: seq<seq<Bits>>, dim: nat) {
    forall i :: 0 <= i < |vectors| ==> |vectors[i]| == dim
  }

  /** Every row has the same size, so row `i` starts at `i` times that size. */
  lemma {:induction false} AllPackedAt(vectors: seq<seq<Bits>>, dim: nat, size: nat, i: nat)
    requires AllOfDim(vectors, dim) && size == dim * 4 && i < |vectors|
    ensures i * size + size <= |AllPacked(vectors)|
    ensures AllPacked(vectors)[i * size..i * size + size] == Packed(vectors[i])
    decreases |vectors|
  {
    hide Packed;
    var n := |vectors| - 1;
    var front := vectors[..n];
    PackedSize(front, dim, size);
    assert |vectors[n]| == dim;
    if i < n {
      AllPackedAt(front, dim, size, i);
      FrontKept(AllPacked(front), Packed(vectors[n]), i * size, i * size + size);
    } else {
      assert i * size == |AllPacked(front)|;
      assert AllPacked(vectors) == AllPacked(front) + Packed(vectors[n]);
    }
  }

  lemma FrontKept(a: Bytes, b: Bytes, lo: nat, hi: nat)
    requires lo <= hi <= |a|
    ensures (a + b)[lo..hi] == a[lo..hi]
  {
  }

  lemma {:induction false} PackedSize(vectors: seq<seq<Bits>>, dim: nat, size: nat)
    requires AllOfDim(vectors, dim) && size == dim * 4
    ensures |AllPacked(vectors)| == |vectors| * size
    decreases |vectors|
  {
    hide Packed;
    if vectors != [] {
      var n := |vectors| - 1;
      PackedSize(vectors[..n], dim, size);
      assert |vectors[n]| == dim;
      assert (n + 1) * size == n * size + size;
    }
  }

  /** `add` over a whole build; `mid.tsv` gets a line per message, `vectors.f32` a row. */
  class EmbeddingBuilder {
    const dim: nat
    var mids: seq<Bytes>
    var midFile: Bytes
    var vectorFile: Bytes
    var count: nat
    ghost var added: seq<seq<Bits>>

    ghost predicate Valid()
      reads this
    {
      && |mids| == count == |added| && OneLiners(mids) && AllOfDim(added, dim)
      && midFile == Terminated(mids) && vectorFile == AllPacked(added)
    }

    constructor (dim: nat)
      ensures Valid() && this.dim == dim && mids == [] && added == []
    {
      this.dim := dim;
      mids, midFile, vectorFile, count, added := [], [], [], 0, [];
    }

    /** A vector of another dimension and an id with a line feed are refused, and nothing is written. */
    method Add(mid: Bytes, vector: seq<Bits>) returns (r: Result<()>)
      requires Valid()
      modifies this
      ensures Valid()
      ensures r.Ok? <==> |vector| == dim && LF !in mid
      ensures r.Ok? ==> mids == old(mids) + [mid] && added == old(added) + [vector]
      ensures r.Err? ==>
        mids == old(mids) && added == old(added) && midFile == old(midFile) && vectorFile == old(vectorFile)
    {
      if |vector| != dim {
        return Err("vector dim mismatch");
      }
      if LF in mid {
        return Err("message_id contains newline");
      }
      TerminatedAppend(mids, mid);
      midFile := midFile + mid + [LF];
      var row: Bytes := [];
      assert vector[..0] == [];
      for j := 0 to |vector|
        invariant row == Packed(vector[..j])
        invariant vectorFile == old(vectorFile) && midFile == Terminated(mids + [mid])
        invariant mids == old(mids) && added == old(added) && count == old(count)
      {
        assert vector[..j + 1][..j] == vector[..j];
        row := row + LittleEndian(vector[j]);
      }
      assert vector[..|vector|] == vector;
      vectorFile := vectorFile + row;
      assert (added + [vector])[..|added|] == added;
      added := added + [vector];
      mids := mids + [mid];
      count := count + 1;
      r := Ok(());
    }
  }

  lemma {:induction false} TerminatedAppend(lines: seq<Bytes>, line: Bytes)
    ensures Terminated(lines + [line]) == Terminated(lines) + line + [LF]
    decreases |lines|
  {
    if lines == [] {
      assert [line][1..] == [] && lines + [line] == [line];
    } else {
      TerminatedAppend(lines[1..], line);
      assert (lines + [line])[1..] == lines[1..] + [line];
    }
  }

  /** `vector_at`: the row read back from its offset. */
  method VectorAt(file: Bytes, dim: nat, idx: nat, ghost vectors: seq<seq<Bits>>) returns (v: seq<Bits>)
    requires AllOfDim(vectors, dim) && file == AllPacked(vectors) && idx < |vectors|
    ensures v == vectors[idx]
  {
    hide Packed, AllPacked, LittleEndian, FromLittleEndian;
    AllPackedAt(vectors, dim, dim * 4, idx);
    assert idx * dim * 4 == idx * (dim * 4);
    var off := idx * dim * 4;
    var slice := file[off..off + dim * 4];
    v := [];
    for j := 0 to dim
      invariant |v| == j && forall k :: 0 <= k < j ==> v[k] == vectors[idx][k]
    {
      var p := j * 4;
      PackedAt(vectors[idx], j);
      FloatRoundTrip(vectors[idx][j]);
      var four := [slice[p], slice[p + 1], slice[p + 2], slice[p + 3]];
      assert slice[p..p + 4] == four;
      v := v + [FromLittleEndian(four)];
    }
  }

  /** The reader sees the ids that were added exactly when none of them ends in a carriage return. */
  lemma MidsReadBackExactly(mids: seq<Bytes>)
    requires OneLiners(mids)
    ensures |Lines(Terminated(mids))| == |mids|
    ensures Lines(Terminated(mids)) == mids
       <==> forall i :: 0 <= i < |mids| ==> mids[i] == [] || mids[i][|mids[i]| - 1] != CR
  {
    LinesOfTerminated(mids);
    TerminatedRoundTrip(mids);
  }

  // ----- Scores -------------------------------------------------------------

  /** A float score. */
  datatype Score = NaN | NegInf | Num(value: real) | PosInf

  function Class(s: Score): nat {
    match s
    case NaN => 0
    case NegInf => 1
    case Num(_) => 2
    case PosInf => 3
  }

  /** `OrdF32`: not-a-number is below everything. */
  predicate ScoreLe(a: Score, b: Score) {
    Class(a) < Class(b) || (Class(a) == Class(b) && (a.Num? && b.Num? ==> a.value <= b.value))
  }

  predicate ScoreLt(a: Score, b: Score) {
    ScoreLe(a, b) && !ScoreLe(b, a)
  }

  lemma ScoreIsTotalOrder(a: Score, b: Score, c: Score)
    ensures ScoreLe(a, b) || ScoreLe(b, a)
    ensures ScoreLe(a, b) && ScoreLe(b, a) ==> a == b
    ensures ScoreLe(a, b) && ScoreLe(b, c) ==> ScoreLe(a, c)
  {
  }

  datatype Entry = Entry(score: Score, row: nat)

  /** The order of the pairs in the heap. */
  predicate EntryLe(a: Entry, b: Entry) {
    ScoreLt(a.score, b.score) || (a.score == b.score && a.row <= b.row)
  }

  const BEST_FIRST: (Entry, Entry) -> bool := (a: Entry, b: Entry) => ScoreLe(b.score, a.score)

  lemma {:induction false} MinExists(heap: set<Entry>)
    requires heap != {}
    ensures exists m :: m in heap && forall x :: x in heap ==> EntryLe(m, x)
    decreases |heap|
  {
    var y :| y in heap;
    var rest := heap - {y};
    if rest == {} {
      assert heap == {y};
    } else {
      MinExists(rest);
      var m :| m in rest && forall x :: x in rest ==> EntryLe(m, x);
      var best := if EntryLe(m, y) then m else y;
      forall x | x in heap ensures EntryLe(best, x) {
        assert x == y || x in rest;
      }
      assert best in heap;
    }
  }

  /** Rows before `i` not kept score no higher than any kept one. */
  ghost predicate HeapOk(scores: seq<Score>, i: nat, k: nat, heap: set<Entry>)
    requires i <= |scores|
  {
    && |heap| == Min(k, i)
    && (forall e :: e in heap ==> e.row < i && e.score == scores[e.row])
    && (forall j: nat, e :: j < i && Entry(scores[j], j) !in heap && e in heap ==> ScoreLe(scores[j], e.score))
  }

  lemma HeapGrows(scores: seq<Score>, i: nat, k: nat, heap: set<Entry>)
    requires i < |scores| && HeapOk(scores, i, k, heap) && |heap| < k
    ensures HeapOk(scores, i + 1, k, heap + {Entry(scores[i], i)})
  {
    AllKept(scores, i, heap);
  }

  /** While the heap is not full every row is in it. */
  lemma AllKept(scores: seq<Score>, i: nat, heap: set<Entry>)
    requires i <= |scores| && |heap| == i && forall e :: e in heap ==> e.row < i && e.score == scores[e.row]
    ensures forall j: nat :: j < i ==> Entry(scores[j], j) in heap
  {
    var all := set j: nat | j < i :: Entry(scores[j], j);
    RowsCount(scores, i);
    assert heap <= all;
    assert all == heap + (all - heap);
    assert |all - heap| == 0;
    assert heap == all;
  }

  lemma {:induction false} RowsCount(scores: seq<Score>, i: nat)
    requires i <= |scores|
    ensures |set j: nat | j < i :: Entry(scores[j], j)| == i
    decreases i
  {
    var all := set j: nat | j < i :: Entry(scores[j], j);
    if i > 0 {
      RowsCount(scores, i - 1);
      assert all == (set j: nat | j < i - 1 :: Entry(scores[j], j)) + {Entry(scores[i - 1], i - 1)};
    }
  }

  lemma HeapReplaces(scores: seq<Score>, i: nat, k: nat, heap: set<Entry>, m: Entry)
    requires i < |scores| && HeapOk(scores, i, k, heap) && |heap| == k
    requires m in heap && forall x :: x in heap ==> EntryLe(m, x)
    ensures ScoreLt(m.score, scores[i]) ==> HeapOk(scores, i + 1, k, heap - {m} + {Entry(scores[i], i)})
    ensures !ScoreLt(m.score, scores[i]) ==> HeapOk(scores, i + 1, k, heap)
  {
    var e := Entry(scores[i], i);
    ScoreIsTotalOrder(m.score, scores[i], m.score);
    if ScoreLt(m.score, scores[i]) {
      var heap' := heap - {m} + {e};
      forall j: nat, x | j < i + 1 && Entry(scores[j], j) !in heap' && x in heap' ensures ScoreLe(scores[j], x.score) {
        ScoreIsTotalOrder(scores[j], m.score, x.score);
      }
    } else {
      forall j: nat, x | j < i + 1 && Entry(scores[j], j) !in heap && x in heap ensures ScoreLe(scores[j], x.score) {
        ScoreIsTotalOrder(scores[j], m.score, x.score);
      }
    }
  }

  /** Among floats: any not-a-number is worse than anything else, and numbers and infinities are in their own order. */
  predicate AtLeast(a: Score, b: Score) {
    || b.NaN? || a.PosInf?
    || (a.Num? && b.Num? && a.value >= b.value)
    || (b.NegInf? && !a.NaN?)
  }

  lemma AtLeastIsScoreLe(a: Score, b: Score)
    ensures ScoreLe(b, a) <==> AtLeast(a, b)
  {
  }

  /** `out` holds the k best rows (all, if there are fewer), best first. */
  ghost predicate IsNearest(out: seq<Entry>, scores: seq<Score>, k: nat) {
    && |out| == Min(k, |scores|)
    && (forall i :: 0 <= i < |out| ==> out[i].row < |scores| && out[i].score == scores[out[i].row])
    && (forall i, j :: 0 <= i < j < |out| ==> out[i].row != out[j].row && AtLeast(out[i].score, out[j].score))
    && (forall j: nat, e :: j < |scores| && Entry(scores[j], j) !in out && e in out ==> AtLeast(e.score, scores[j]))
  }

  /** In plain numbers: descending, no row left out scores above a returned one, and no not-a-number displaces one. */
  lemma NearestMeans(out: seq<Entry>, scores: seq<Score>, k: nat)
    requires IsNearest(out, scores, k)
    ensures forall i, j :: 0 <= i < j < |out| && out[i].score.Num? && out[j].score.Num? ==>
      out[i].score.value >= out[j].score.value
    ensures forall i, j :: 0 <= i < j < |out| && out[i].score.NaN? ==> out[j].score.NaN?
    ensures forall j: nat, e :: j < |scores| && Entry(scores[j], j) !in out && e in out ==>
      && (scores[j].Num? && e.score.Num? ==> scores[j].value <= e.score.value)
      && (e.score.NaN? ==> scores[j].NaN?)
  {
  }

  /** The ids and scores of the entries, one for one. */
  ghost predicate Lists(out: seq<(Bytes, Score)>, kept: seq<Entry>, mids: seq<Bytes>) {
    |out| == |kept| && forall i :: 0 <= i < |out| ==>
      kept[i].row < |mids| && out[i] == (mids[kept[i].row], kept[i].score)
  }

  const DIM_MISMATCH := "query dim mismatch"

  /** `acc + v * q` as the processor rounds it. */
  type MulAdd = (Score, Bits, Bits) -> Score

  /** The dot product, accumulated from the left. */
  function Dot(step: MulAdd, query: seq<Bits>, v: seq<Bits>): Score
    requires |query| == |v|
  {
    if v == [] then Num(0.0)
    else
      var n := |v| - 1;
      step(Dot(step, query[..n], v[..n]), v[n], query[n])
  }

  function Scores(step: MulAdd, query: seq<Bits>, vectors: seq<seq<Bits>>): seq<Score>
    requires forall i :: 0 <= i < |vectors| ==> |vectors[i]| == |query|
  {
    seq(|vectors|, i requires 0 <= i < |vectors| => Dot(step, query, vectors[i]))
  }

  /** The inner loop: decode the row's floats one by one and accumulate. */
  method DotAt(file: Bytes, dim: nat, idx: nat, query: seq<Bits>, step: MulAdd, ghost vectors: seq<seq<Bits>>)
    returns (dot: Score)
    requires AllOfDim(vectors, dim) && file == AllPacked(vectors) && idx < |vectors| && |query| == dim
    ensures dot == Dot(step, query, vectors[idx])
  {
    hide Packed, AllPacked, LittleEndian, FromLittleEndian;
    AllPackedAt(vectors, dim, dim * 4, idx);
    var off := idx * (dim * 4);
    var slice := file[off..off + dim * 4];
    ghost var vector := vectors[idx];
    dot := Num(0.0);
    assert vector[..0] == [];
    for j := 0 to dim
      invariant dot == Dot(step, query[..j], vector[..j])
    {
      var p := j * 4;
      PackedAt(vector, j);
      FloatRoundTrip(vector[j]);
      var four := [slice[p], slice[p + 1], slice[p + 2], slice[p + 3]];
      assert slice[p..p + 4] == four;
      assert vector[..j + 1][..j] == vector[..j] && query[..j + 1][..j] == query[..j];
      dot := step(dot, FromLittleEndian(four), query[j]);
    }
    assert vector[..dim] == vector && query[..dim] == query;
  }

  /** `nearest_bruteforce`: score every stored vector against the query, keep the best `k`. */
  method NearestBruteforce(file: Bytes, dim: nat, mids: seq<Bytes>, query: seq<Bits>, step: MulAdd, k: nat,
                           ghost vectors: seq<seq<Bits>>) returns (r: Result<seq<(Bytes, Score)>>)
    requires AllOfDim(vectors, dim) && file == AllPacked(vectors) && |mids| == |vectors|
    ensures |query| != dim ==> r == Err(DIM_MISMATCH)
    ensures |query| == dim ==>
      r.Ok? && exists kept :: IsNearest(kept, Scores(step, query, vectors), k) && Lists(r.value, kept, mids)
    ensures r.Ok? ==> forall i, j :: 0 <= i < j < |r.value| && r.value[i].1.Num? && r.value[j].1.Num? ==>
      r.value[i].1.value >= r.value[j].1.value
    ensures r.Ok? ==> forall i, j :: 0 <= i < j < |r.value| && r.value[i].1.NaN? ==> r.value[j].1.NaN?
  {
    hide HeapOk, Sort, ScoreLe, EntryLe, AllPacked, Dot, IsNearest, AtLeast;
    if |query| != dim {
      return Err(DIM_MISMATCH);
    }
    ghost var scores := Scores(step, query, vectors);
    if k == 0 || |mids| == 0 {
      NothingIsNearest(scores, mids, k);
      return Ok([]);
    }
    var heap: set<Entry> := {};
    EmptyHeap(scores, k);
    for i := 0 to |mids|
      invariant HeapOk(scores, i, k, heap) && |heap| <= k
    {
      var dot := DotAt(file, dim, i, query, step, vectors);
      heap := Offer(scores, i, k, heap, dot);
    }
    var list := Drain(heap);
    var sorted := Sort(list, BEST_FIRST);
    SortedIsNearest(scores, k, heap, list);
    var out: seq<(Bytes, Score)> := [];
    RowsInFile(sorted, scores, k);
    for i := 0 to |sorted|
      invariant |out| == i && forall x :: 0 <= x < i ==>
        sorted[x].row < |mids| && out[x] == (mids[sorted[x].row], sorted[x].score)
    {
      out := out + [(mids[sorted[i].row], sorted[i].score)];
    }
    assert IsNearest(sorted, scores, k) && Lists(out, sorted, mids);
    ListedOrder(out, sorted, scores, mids, k);
    return Ok(out);
  }

  lemma NothingIsNearest(scores: seq<Score>, mids: seq<Bytes>, k: nat)
    requires k == 0 || |scores| == 0
    ensures IsNearest([], scores, k) && Lists([], [], mids)
  {
  }

  lemma RowsInFile(out: seq<Entry>, scores: seq<Score>, k: nat)
    requires IsNearest(out, scores, k)
    ensures forall i :: 0 <= i < |out| ==> out[i].row < |scores|
  {
  }

  lemma ListedOrder(out: seq<(Bytes, Score)>, kept: seq<Entry>, scores: seq<Score>, mids: seq<Bytes>, k: nat)
    requires IsNearest(kept, scores, k) && Lists(out, kept, mids)
    ensures forall i, j :: 0 <= i < j < |out| && out[i].1.Num? && out[j].1.Num? ==> out[i].1.value >= out[j].1.value
    ensures forall i, j :: 0 <= i < j < |out| && out[i].1.NaN? ==> out[j].1.NaN?
  {
    NearestMeans(kept, scores, k);
  }

  /** One row is offered to the bounded heap. */
  method Offer(ghost scores: seq<Score>, i: nat, k: nat, heap: set<Entry>, score: Score) returns (heap': set<Entry>)
    requires i < |scores| && score == scores[i] && HeapOk(scores, i, k, heap) && k > 0
    ensures HeapOk(scores, i + 1, k, heap') && |heap'| <= k
    ensures heap' != heap && |heap| == k ==> exists m ::
      && m in heap && heap' == heap - {m} + {Entry(score, i)}
      && (forall x :: x in heap ==> AtLeast(x.score, m.score))
      && (forall x :: x in heap && x.score == m.score ==> m.row <= x.row)
  {
    hide HeapOk, ScoreLe, EntryLe;
    heap' := heap;
    var e := Entry(score, i);
    HeapSize(scores, i, k, heap);
    if |heap| < k {
      HeapGrows(scores, i, k, heap);
      heap' := heap + {e};
    } else {
      MinExists(heap);
      var m :| m in heap && forall x :: x in heap ==> EntryLe(m, x);
      HeapReplaces(scores, i, k, heap, m);
      LowestEntry(heap, m);
      if ScoreLt(m.score, e.score) {
        heap' := heap - {m} + {e};
      }
    }
    HeapSize(scores, i + 1, k, heap');
  }

  /** What is given up: an entry with the lowest score, and among those the first in file order. */
  lemma LowestEntry(heap: set<Entry>, m: Entry)
    requires m in heap && forall x :: x in heap ==> EntryLe(m, x)
    ensures forall x :: x in heap ==> AtLeast(x.score, m.score)
    ensures forall x :: x in heap && x.score == m.score ==> m.row <= x.row
  {
  }

  lemma EmptyHeap(scores: seq<Score>, k: nat)
    ensures HeapOk(scores, 0, k, {})
  {
  }

  lemma HeapSize(scores: seq<Score>, i: nat, k: nat, heap: set<Entry>)
    requires i <= |scores| && HeapOk(scores, i, k, heap)
    ensures |heap| == Min(k, i)
  {
  }

  /** The heap's content in no particular order. */
  method Drain(heap: set<Entry>) returns (list: seq<Entry>)
    ensures Distinct(list) && |list| == |heap| && forall e :: e in list <==> e in heap
  {
    list := [];
    var left := heap;
    while left != {}
      invariant Distinct(list) && |list| + |left| == |heap|
      invariant forall e :: e in heap <==> e in left || e in list
      invariant forall e :: e in list ==> e !in left
      decreases |left|
    {
      var e :| e in left;
      left := left - {e};
      list := list + [e];
    }
  }

  lemma SortedIsNearest(scores: seq<Score>, k: nat, heap: set<Entry>, list: seq<Entry>)
    requires HeapOk(scores, |scores|, k, heap)
    requires Distinct(list) && |list| == |heap| && forall e :: e in list <==> e in heap
    ensures IsNearest(Sort(list, BEST_FIRST), scores, k)
  {
    hide Sort, ScoreLe;
    var out := Sort(list, BEST_FIRST);
    BestFirstIsPreorder();
    SortSorts(list, BEST_FIRST);
    SortPermutes(list, BEST_FIRST);
    SortDistinct(list, BEST_FIRST);
    forall e ensures e in out <==> e in heap {
      SortMember(list, BEST_FIRST, e);
    }
    forall i | 0 <= i < |out| ensures out[i] in heap {
      assert out[i] in out;
    }
    forall i, j | 0 <= i < j < |out| ensures out[i].row != out[j].row && ScoreLe(out[j].score, out[i].score) {
      assert BEST_FIRST(out[i], out[j]);
      assert out[i] != out[j];
    }
    forall a, b ensures ScoreLe(b, a) <==> AtLeast(a, b) {
      AtLeastIsScoreLe(a, b);
    }
  }

  lemma BestFirstIsPreorder()
    ensures TotalPreorder(BEST_FIRST)
  {
    forall a, b ensures BEST_FIRST(a, b) || BEST_FIRST(b, a) {
      ScoreIsTotalOrder(a.score, b.score, a.score);
    }
    forall a, b, c | BEST_FIRST(a, b) && BEST_FIRST(b, c) ensures BEST_FIRST(a, c) {
      ScoreIsTotalOrder(c.score, b.score, a.score);
    }
  }
}
