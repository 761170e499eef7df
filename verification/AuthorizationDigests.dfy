/**
 What the authorization digests bind. SHA-256 is taken as an ideal hash, so every statement here is
 about the bytes that are hashed: `domain || 0x00 || version || 0x00 || body`.
 */
module AuthorizationDigests {
  import opened Wrappers
  import opened Bytes
  import opened CanonicalValue

  /** UTF-8 of an ASCII text. */
  function Ascii(s: string): (b: bytes)
    ensures |b| == |s|
  {
    seq(|s|, i requires 0 <= i < |s| => if s[i] as int < 128 then s[i] as int else 63)
  }

  const DIGEST_VERSION: bytes := Ascii("1")

  function Framed(domain: bytes, body: bytes): bytes {
    domain + [0] + DIGEST_VERSION + [0] + body
  }

  /** Domains have no zero byte, so a preimage determines its domain and its body. */
  lemma FramedIdentifies(d: bytes, e: bytes, b: bytes, c: bytes)
    requires 0 !in d && 0 !in e
    ensures Framed(d, b) == Framed(e, c) <==> d == e && b == c
  {
    var s, t := Framed(d, b), Framed(e, c);
    if s == t {
      assert s[|d|] == 0 && t[|e|] == 0;
      assert |d| == |e|;
      assert d == s[..|d|] && e == t[..|e|];
      assert b == s[|d| + 3..] && c == t[|e| + 3..];
    }
  }

  // ----- Lists of length-prefixed strings -----

  function PushAll(fields: seq<bytes>): bytes {
    if fields == [] then [] else PushBytes(fields[0]) + PushAll(fields[1..])
  }

  ghost predicate Short(fields: seq<bytes>) {
    forall i :: 0 <= i < |fields| ==> |fields[i]| < TWO_32
  }

  lemma {:induction false} PushAllIdentifies(f: seq<bytes>, g: seq<bytes>, r: bytes, s: bytes)
    requires |f| == |g| && Short(f) && Short(g)
    ensures PushAll(f) + r == PushAll(g) + s <==> f == g && r == s
  {
    if f == [] {
      assert [] + r == r && [] + s == s;
    } else {
      Concat(PushBytes(f[0]), PushAll(f[1..]), r);
      Concat(PushBytes(g[0]), PushAll(g[1..]), s);
      TakePushed(f[0], PushAll(f[1..]) + r);
      TakePushed(g[0], PushAll(g[1..]) + s);
      PushAllIdentifies(f[1..], g[1..], r, s);
      assert f == [f[0]] + f[1..] && g == [g[0]] + g[1..];
    }
  }

  lemma {:induction false} PushAllSnoc(fields: seq<bytes>, x: bytes)
    ensures PushAll(fields + [x]) == PushAll(fields) + PushBytes(x)
  {
    if fields == [] {
      assert [] + [x] == [x] && PushBytes(x) + [] == PushBytes(x);
    } else {
      assert (fields + [x])[1..] == fields[1..] + [x];
      PushAllSnoc(fields[1..], x);
      Concat(PushBytes(fields[0]), PushAll(fields[1..]), PushBytes(x));
    }
  }

  /** A counted list: how many strings, then the strings. */
  function Counted(list: seq<bytes>): bytes { PushLen(|list|) + PushAll(list) }

  lemma CountedIdentifies(f: seq<bytes>, g: seq<bytes>, r: bytes, s: bytes)
    requires |f| < TWO_32 && |g| < TWO_32 && Short(f) && Short(g)
    ensures Counted(f) + r == Counted(g) + s <==> f == g && r == s
  {
    Concat(PushLen(|f|), PushAll(f), r);
    Concat(PushLen(|g|), PushAll(g), s);
    ReadU32OfU32(|f|, PushAll(f) + r);
    ReadU32OfU32(|g|, PushAll(g) + s);
    if Counted(f) + r == Counted(g) + s {
      assert (U32(|f|) + (PushAll(f) + r))[4..] == PushAll(f) + r;
      assert (U32(|g|) + (PushAll(g) + s))[4..] == PushAll(g) + s;
      PushAllIdentifies(f, g, r, s);
    }
  }

  // ----- Chunks, IPFS contents, dynamic values -----

  function ChunksPreimage(domain: bytes, chunks: seq<bytes>): bytes { Framed(domain, Counted(chunks)) }

  /** Chunk sets are bound in order, with their boundaries. */
  lemma ChunksIdentify(d: bytes, e: bytes, f: seq<bytes>, g: seq<bytes>)
    requires 0 !in d && 0 !in e && |f| < TWO_32 && |g| < TWO_32 && Short(f) && Short(g)
    ensures ChunksPreimage(d, f) == ChunksPreimage(e, g) <==> d == e && f == g
  {
    FramedIdentifies(d, e, Counted(f), Counted(g));
    assert Counted(f) + [] == Counted(f) && Counted(g) + [] == Counted(g);
    CountedIdentifies(f, g, [], []);
  }

  const DOMAIN_DOCUMENT := Ascii("fhs/auth/document")
  const DOMAIN_IPFS := Ascii("fhs/auth/ipfs")
  const DOMAIN_BATCH := Ascii("fhs/auth/batch")

  /** The digest of a document's bytes. */
  function DocumentDigest(hash: bytes -> bytes, content: bytes): bytes { hash(Framed(DOMAIN_DOCUMENT, content)) }

  function IpfsPreimage(hash: bytes -> bytes, cid: bytes, content: bytes): bytes {
    Framed(DOMAIN_IPFS, PushBytes(cid) + PushBytes(DocumentDigest(hash, content)))
  }

  predicate Collision(hash: bytes -> bytes, x: bytes, y: bytes) { x != y && hash(x) == hash(y) }

  /** A content identifier and the content behind it are bound together: equal preimages mean equal
      identifiers and equal contents, or else the two contents show a collision of the hash. */
  lemma IpfsIdentifies(hash: bytes -> bytes, cid: bytes, cid2: bytes, content: bytes, content2: bytes)
    requires |cid| < TWO_32 && |cid2| < TWO_32
    requires |DocumentDigest(hash, content)| == 32 && |DocumentDigest(hash, content2)| == 32
    ensures IpfsPreimage(hash, cid, content) == IpfsPreimage(hash, cid2, content2)
            <==> cid == cid2
                 && (content == content2
                     || Collision(hash, Framed(DOMAIN_DOCUMENT, content), Framed(DOMAIN_DOCUMENT, content2)))
  {
    var h, h2 := DocumentDigest(hash, content), DocumentDigest(hash, content2);
    FramedIdentifies(DOMAIN_IPFS, DOMAIN_IPFS, PushBytes(cid) + PushBytes(h), PushBytes(cid2) + PushBytes(h2));
    TakePushed(cid, PushBytes(h));
    TakePushed(cid2, PushBytes(h2));
    TakePushed(h, []);
    TakePushed(h2, []);
    assert PushBytes(h) + [] == PushBytes(h) && PushBytes(h2) + [] == PushBytes(h2);
    FramedIdentifies(DOMAIN_DOCUMENT, DOMAIN_DOCUMENT, content, content2);
  }

  ghost function ValuePreimage(domain: bytes, v: Value): bytes
    requires Encode(v).Some?
  {
    Framed(domain, Encode(v).value)
  }

  /** A value digest binds its domain and the value up to the sign of zero. */
  lemma ValueDigestIdentifies(d: bytes, e: bytes, v: Value, w: Value)
    requires 0 !in d && 0 !in e && Encode(v).Some? && Fits(v) && Encode(w).Some? && Fits(w)
    ensures ValuePreimage(d, v) == ValuePreimage(e, w) <==> d == e && Norm(v) == Norm(w)
  {
    FramedIdentifies(d, e, Encode(v).value, Encode(w).value);
    assert Encode(v).value + [] == Encode(v).value && Encode(w).value + [] == Encode(w).value;
    EncodingIdentifies(v, w, [], []);
  }
}
