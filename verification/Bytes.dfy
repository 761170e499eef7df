/**
 Byte strings: big-endian integers, the length-prefixed framing shared by the canonical encodings,
 and the lexicographic order by which keys are sorted.
 */
module Bytes {
  import opened Wrappers

  type byte = x: int | 0 <= x < 256
  type bytes = seq<byte>

  const TWO_32: nat := 0x1_0000_0000
  const TWO_64: nat := 0x1_0000_0000_0000_0000

  type int64 = x: int | -0x8000_0000_0000_0000 <= x < 0x8000_0000_0000_0000
  type bits64 = x: int | 0 <= x < TWO_64

  // ----- Integers -----

  function Pow256(width: nat): nat {
    if width == 0 then 1 else 256 * Pow256(width - 1)
  }

  /** The low `width` bytes of `n`, most significant first; whatever does not fit is dropped. */
  function BigEndian(width: nat, n: nat): (r: bytes)
    ensures |r| == width
    decreases width, n
  {
    if width == 0 then [] else BigEndian(width - 1, n / 256) + [n % 256]
  }

  function Number(s: bytes): nat {
    if s == [] then 0
    else
      var last: int := s[|s| - 1];
      Number(s[..|s| - 1]) * 256 + last
  }

  lemma {:induction false} NumberBound(s: bytes)
    ensures Number(s) < Pow256(|s|)
  {
    if s != [] {
      NumberBound(s[..|s| - 1]);
    }
  }

  lemma {:induction false} NumberOfBigEndian(width: nat, n: nat)
    requires n < Pow256(width)
    ensures Number(BigEndian(width, n)) == n
  {
    if width > 0 {
      var s := BigEndian(width, n);
      assert s[..width - 1] == BigEndian(width - 1, n / 256);
      NumberOfBigEndian(width - 1, n / 256);
    }
  }

  lemma {:induction false} BigEndianOfNumber(s: bytes)
    ensures BigEndian(|s|, Number(s)) == s
  {
    if s != [] {
      var init := s[..|s| - 1];
      BigEndianOfNumber(init);
      assert Number(s) / 256 == Number(init);
      assert s == init + [s[|s| - 1]];
    }
  }

  /** `(n as u32).to_be_bytes()`. */
  function U32(n: nat): (r: bytes)
    ensures |r| == 4
  {
    BigEndian(4, n)
  }

  function ReadU32(s: bytes): nat
    requires |s| >= 4
  {
    Number(s[..4])
  }

  lemma Powers()
    ensures Pow256(4) == TWO_32 && Pow256(8) == TWO_64
  {
    assert Pow256(2) == 0x1_0000;
    assert Pow256(4) == 0x100 * (0x100 * Pow256(2));
    assert Pow256(6) == 0x100 * (0x100 * Pow256(4));
    assert Pow256(8) == 0x100 * (0x100 * Pow256(6));
  }

  lemma ReadU32Bound(s: bytes)
    requires |s| >= 4
    ensures ReadU32(s) < TWO_32
    ensures U32(ReadU32(s)) == s[..4]
  {
    Powers();
    NumberBound(s[..4]);
    BigEndianOfNumber(s[..4]);
  }

  lemma ReadU32OfU32(n: nat, rest: bytes)
    requires n < TWO_32
    ensures ReadU32(U32(n) + rest) == n
  {
    Powers();
    assert (U32(n) + rest)[..4] == U32(n);
    NumberOfBigEndian(4, n);
  }

  /** A 64-bit pattern, most significant byte first. */
  function U64(n: bits64): (r: bytes)
    ensures |r| == 8
  {
    BigEndian(8, n)
  }

  function ReadU64(s: bytes): (n: bits64)
    requires |s| >= 8
  {
    Powers();
    NumberBound(s[..8]);
    Number(s[..8])
  }

  lemma ReadU64OfU64(n: bits64, rest: bytes)
    ensures ReadU64(U64(n) + rest) == n
  {
    Powers();
    assert (U64(n) + rest)[..8] == U64(n);
    NumberOfBigEndian(8, n);
  }

  lemma U64OfReadU64(s: bytes)
    requires |s| >= 8
    ensures U64(ReadU64(s)) == s[..8]
  {
    BigEndianOfNumber(s[..8]);
  }

  /** Two's complement. */
  function ToBits(i: int64): bits64 {
    if i < 0 then i + TWO_64 else i
  }

  function FromBits(n: bits64): int64 {
    if n < 0x8000_0000_0000_0000 then n else n - TWO_64
  }

  // ----- Length-prefixed byte strings -----

  function PushLen(n: nat): bytes { U32(n) }

  function PushBytes(b: bytes): bytes { PushLen(|b|) + b }

  /** Read one length-prefixed string and what follows it. */
  function TakeBytes(s: bytes): (r: Option<(bytes, bytes)>)
    ensures r.Some? ==> |r.value.1| < |s|
  {
    if |s| < 4 then None
    else if 4 + ReadU32(s) > |s| then None
    else Some((s[4..4 + ReadU32(s)], s[4 + ReadU32(s)..]))
  }

  lemma TakePushed(b: bytes, rest: bytes)
    requires |b| < TWO_32
    ensures TakeBytes(PushBytes(b) + rest) == Some((b, rest))
  {
    var s := PushBytes(b) + rest;
    assert s == U32(|b|) + (b + rest);
    ReadU32OfU32(|b|, b + rest);
    assert s[4..4 + |b|] == b && s[4 + |b|..] == rest;
  }

  lemma PushTaken(s: bytes)
    requires TakeBytes(s).Some?
    ensures |TakeBytes(s).value.0| < TWO_32
    ensures s == PushBytes(TakeBytes(s).value.0) + TakeBytes(s).value.1
  {
    ReadU32Bound(s);
    var (b, rest) := TakeBytes(s).value;
    assert s == s[..4] + b + rest;
  }

  /** A framed string followed by anything is read back unless its length does not fit 32 bits. */
  lemma FramingRecovers(b: bytes)
    ensures (forall rest :: TakeBytes(PushBytes(b) + rest) == Some((b, rest))) <==> |b| < TWO_32
  {
    if |b| < TWO_32 {
      forall rest ensures TakeBytes(PushBytes(b) + rest) == Some((b, rest)) {
        TakePushed(b, rest);
      }
    } else {
      var s := PushBytes(b) + [];
      assert s == U32(|b|) + (b + []);
      ReadU32Bound(s);
      assert TakeBytes(s) != Some((b, []));
    }
  }

  lemma Concat(a: bytes, b: bytes, c: bytes)
    ensures a + (b + c) == a + b + c
  {
  }

  // ----- Writing -----

  /** A growing byte vector. */
  class Buffer {
    var data: bytes

    constructor ()
      ensures data == []
    {
      data := [];
    }

    method Push(b: byte)
      modifies this
      ensures data == old(data) + [b]
    {
      data := data + [b];
    }

    method Extend(bs: bytes)
      modifies this
      ensures data == old(data) + bs
    {
      data := data + bs;
    }
  }

  method WriteLen(out: Buffer, len: nat)
    modifies out
    ensures out.data == old(out.data) + PushLen(len)
  {
    out.Extend(U32(len));
  }

  method WriteBytes(out: Buffer, b: bytes)
    modifies out
    ensures out.data == old(out.data) + PushBytes(b)
  {
    WriteLen(out, |b|);
    out.Extend(b);
  }

  // ----- Lexicographic order -----

  predicate Leq(a: bytes, b: bytes) {
    if a == [] then true
    else if b == [] then false
    else if a[0] != b[0] then a[0] < b[0]
    else Leq(a[1..], b[1..])
  }

  predicate Less(a: bytes, b: bytes) { Leq(a, b) && a != b }

  lemma LeqTotal(a: bytes, b: bytes)
    ensures Leq(a, b) || Leq(b, a)
  {
  }

  lemma {:induction false} LeqAntisymmetric(a: bytes, b: bytes)
    requires Leq(a, b) && Leq(b, a)
    ensures a == b
  {
    if a != [] && b != [] {
      LeqAntisymmetric(a[1..], b[1..]);
      assert a == [a[0]] + a[1..] && b == [b[0]] + b[1..];
    }
  }

  lemma {:induction false} LeqTransitive(a: bytes, b: bytes, c: bytes)
    requires Leq(a, b) && Leq(b, c)
    ensures Leq(a, c)
  {
    if a != [] && b != [] && c != [] && a[0] == b[0] == c[0] {
      LeqTransitive(a[1..], b[1..], c[1..]);
    }
  }

  // ----- Sorting -----

  ghost predicate Sorted(s: seq<bytes>) {
    forall i, j :: 0 <= i < j < |s| ==> Leq(s[i], s[j])
  }

  function Insert(x: bytes, s: seq<bytes>): seq<bytes> {
    if s == [] || Leq(x, s[0]) then [x] + s else [s[0]] + Insert(x, s[1..])
  }

  /** What a comparison sort of byte strings returns; equal strings cannot be told apart. */
  function Sort(s: seq<bytes>): seq<bytes> {
    if s == [] then [] else Insert(s[0], Sort(s[1..]))
  }

  lemma {:induction false} InsertSorted(x: bytes, s: seq<bytes>)
    requires Sorted(s)
    ensures Sorted(Insert(x, s)) && multiset(Insert(x, s)) == multiset{x} + multiset(s)
  {
    if s == [] {
    } else if Leq(x, s[0]) {
      forall i | 0 <= i < |s| ensures Leq(x, s[i]) {
        if i > 0 {
          LeqTransitive(x, s[0], s[i]);
        }
      }
      assert multiset([x] + s) == multiset{x} + multiset(s);
    } else {
      InsertSorted(x, s[1..]);
      LeqTotal(x, s[0]);
      var t := Insert(x, s[1..]);
      assert s == [s[0]] + s[1..];
      forall i | 0 <= i < |t| ensures Leq(s[0], t[i]) {
        assert t[i] in multiset(t);
        assert t[i] == x || t[i] in s[1..];
      }
    }
  }

  lemma {:induction false} SortSorts(s: seq<bytes>)
    ensures Sorted(Sort(s)) && multiset(Sort(s)) == multiset(s)
  {
    if s != [] {
      SortSorts(s[1..]);
      InsertSorted(s[0], Sort(s[1..]));
      assert s == [s[0]] + s[1..];
    }
  }

  /** A multiset has one sorted arrangement. */
  lemma {:induction false} SortedUnique(s: seq<bytes>, t: seq<bytes>)
    requires Sorted(s) && Sorted(t) && multiset(s) == multiset(t)
    ensures s == t
  {
    if s == [] {
      assert |multiset(t)| == |t|;
    } else {
      assert s[0] in multiset(t) && |multiset(s)| == |s| && |multiset(t)| == |t|;
      assert t[0] in multiset(s);
      FirstIsLeast(t, s[0]);
      FirstIsLeast(s, t[0]);
      LeqAntisymmetric(s[0], t[0]);
      SortedUniqueTail(s, t);
      SortedUnique(s[1..], t[1..]);
      assert s == [s[0]] + s[1..] && t == [t[0]] + t[1..];
    }
  }

  lemma FirstIsLeast(s: seq<bytes>, x: bytes)
    requires Sorted(s) && x in s
    ensures Leq(s[0], x)
  {
    LeqRefl(x);
  }

  lemma SortedUniqueTail(s: seq<bytes>, t: seq<bytes>)
    requires Sorted(s) && Sorted(t) && multiset(s) == multiset(t) && s != [] && t != [] && s[0] == t[0]
    ensures Sorted(s[1..]) && Sorted(t[1..]) && multiset(s[1..]) == multiset(t[1..])
  {
    assert s == [s[0]] + s[1..] && t == [t[0]] + t[1..];
    assert multiset(s[1..]) == multiset(s) - multiset{s[0]};
    assert multiset(t[1..]) == multiset(t) - multiset{t[0]};
  }

  lemma LeqRefl(a: bytes)
    ensures Leq(a, a)
  {
  }

  /** Sorting forgets the order it was given. */
  lemma SortIgnoresOrder(s: seq<bytes>, t: seq<bytes>)
    ensures Sort(s) == Sort(t) <==> multiset(s) == multiset(t)
  {
    SortSorts(s);
    SortSorts(t);
    if multiset(s) == multiset(t) {
      SortedUnique(Sort(s), Sort(t));
    }
  }
}
