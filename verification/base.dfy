/**
  Types shared by every component: optional values, error results, bytes and the integer limits of the
  program, set sizes, blocks inside longer sequences, and encodings whose records can be read back one by one.
 */
module Base {

  datatype Option<+T> = None | Some(value: T)

  datatype Result<+T> = Ok(value: T) | Err(error: string)

  type Byte = b: int | 0 <= b < 256

  type Bytes = seq<Byte>

  /** A message id. */
  type Mid = Bytes

  const LF: Byte := 10
  const CR: Byte := 13
  const SLASH: Byte := 47

  const U32_MAX: nat := 0xFFFF_FFFF
  const U64_MAX: nat := 0xFFFF_FFFF_FFFF_FFFF
  const I64_MIN: int := -0x8000_0000_0000_0000
  const I64_MAX: int := 0x7FFF_FFFF_FFFF_FFFF

  /** The limits of the program's integers, in decimal. */
  lemma LimitsInDecimal()
    ensures U32_MAX == 4_294_967_295 && U64_MAX == 18_446_744_073_709_551_615
    ensures I64_MIN == -9_223_372_036_854_775_808 && I64_MAX == 9_223_372_036_854_775_807
  {
  }

  function Min(a: nat, b: nat): nat {
    if a <= b then a else b
  }

  lemma SubsetSize<T>(a: set<T>, b: set<T>)
    requires a <= b
    ensures |a| <= |b|
  {
    assert b == a + (b - a);
    assert |b| == |a| + |b - a|;
  }

  /** The parts, one behind the other. */
  function Concat<T>(parts: seq<seq<T>>): seq<T> {
    if parts == [] then [] else parts[0] + Concat(parts[1..])
  }

  lemma ConcatHead<T>(parts: seq<seq<T>>)
    requires parts != []
    ensures Concat(parts) == parts[0] + Concat(parts[1..])
  {
  }

  lemma {:induction false} ConcatAppend<T>(parts: seq<seq<T>>, part: seq<T>)
    ensures Concat(parts + [part]) == Concat(parts) + part
    decreases |parts|
  {
    if parts == [] {
      assert ([] + [part])[1..] == [];
    } else {
      ConcatAppend(parts[1..], part);
      assert (parts + [part])[1..] == parts[1..] + [part];
    }
  }

  /** `s` occurs in `t` as a contiguous block. */
  ghost predicate Occurs<T>(s: seq<T>, t: seq<T>) {
    exists i: nat :: OccursAt(s, t, i)
  }

  ghost predicate OccursAt<T>(s: seq<T>, t: seq<T>, i: nat) {
    i + |s| <= |t| && t[i..i + |s|] == s
  }

  /**
    An encoding whose records can be read back from the front of any longer byte string:
    what zstd frames (one message body) and portable roaring bitmaps (one posting) promise.
   */
  datatype Codec<!T> = Codec(enc: T -> Bytes, dec: Bytes -> Option<T>)

  ghost predicate SelfDelimiting<T(!new)>(c: Codec<T>) {
    && (forall x: T :: |c.enc(x)| > 0)
    && (forall x: T, rest: Bytes :: c.dec(c.enc(x) + rest) == Some(x))
  }

  function LeadingOnes(s: Bytes): (n: nat)
    ensures n <= |s|
  {
    if s == [] || s[0] != 1 then 0 else 1 + LeadingOnes(s[1..])
  }

  function Ones(n: nat): (r: Bytes)
    ensures |r| == n
  {
    if n == 0 then [] else [1] + Ones(n - 1)
  }

  /** The length in front, counted in ones and closed by a zero: the promise of `SelfDelimiting` can be kept. */
  const COUNTED: Codec<Bytes> := Codec(
    (x: Bytes) => Ones(|x|) + [0] + x,
    (s: Bytes) =>
      var n := LeadingOnes(s);
      if 2 * n + 1 <= |s| then Some(s[n + 1..2 * n + 1]) else None)

  lemma {:induction false} LeadingOnesOf(n: nat, rest: Bytes)
    ensures LeadingOnes(Ones(n) + [0] + rest) == n
  {
    var s := Ones(n) + [0] + rest;
    if n > 0 {
      assert s[1..] == Ones(n - 1) + [0] + rest;
      LeadingOnesOf(n - 1, rest);
    }
  }

  lemma CountedIsSelfDelimiting()
    ensures SelfDelimiting(COUNTED)
  {
    forall x: Bytes, rest: Bytes ensures COUNTED.dec(COUNTED.enc(x) + rest) == Some(x) {
      var n := |x|;
      var s := COUNTED.enc(x) + rest;
      assert s == Ones(n) + [0] + (x + rest);
      LeadingOnesOf(n, x + rest);
      assert s[n + 1..2 * n + 1] == x;
    }
  }
}
