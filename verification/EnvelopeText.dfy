/**
 The text an envelope's signature is over. With the other fields equal it determines each of the five it is
 made of, and all five at once when the message id has no colon and the source is a `did:key`.
 */
module EnvelopeText {
  import opened Wrappers
  import opened Bytes
  import opened EnvelopeScan
  import opened AuthorizationDigests
  import BatchDigest
  import Decimal

  lemma {:induction false} HexInjective(a: bytes, b: bytes)
    ensures Hex(a) == Hex(b) <==> a == b
    decreases |a|
  {
    if Hex(a) == Hex(b) && a != [] && b != [] {
      var s, t := Hex(a), Hex(b);
      assert s[0] == HexDigit(a[0] / 16) && s[1] == HexDigit(a[0] % 16) && s[2..] == Hex(a[1..]);
      assert t[0] == HexDigit(b[0] / 16) && t[1] == HexDigit(b[0] % 16) && t[2..] == Hex(b[1..]);
      assert a[0] == b[0];
      HexInjective(a[1..], b[1..]);
      assert a == [a[0]] + a[1..] && b == [b[0]] + b[1..];
    }
  }

  function TimeText(timestamp: bits64): bytes { Ascii(Decimal.OfInt(FromBits(timestamp))) }

  lemma TimeTextPlain(timestamp: bits64)
    ensures 58 !in TimeText(timestamp)
  {
    var i: int := FromBits(timestamp);
    var n: nat := if i < 0 then -i else i;
    var digits, text := Decimal.OfNat(n), Decimal.OfInt(i);
    assert forall k :: 0 <= k < |digits| ==> Decimal.IsDigit(digits[k]);
    hide Decimal.OfNat;
    assert forall k :: 0 <= k < |text| ==> text[k] == '-' || Decimal.IsDigit(text[k]);
  }

  lemma TimeTextInjective(t: bits64, u: bits64)
    ensures TimeText(t) == TimeText(u) <==> t == u
  {
    BatchDigest.TextIdentifies(FromBits(t), FromBits(u));
  }

  // ----- One field at a time -----

  lemma Between(before: bytes, x: bytes, y: bytes, after: bytes)
    ensures before + x + after == before + y + after <==> x == y
  {
    var s, t := before + x + after, before + y + after;
    if s == t {
      assert |x| == |y|;
      assert s[|before|..|before| + |x|] == x && t[|before|..|before| + |y|] == y;
    }
  }

  /** The other fields being equal, the signed text determines the message id. */
  lemma TextBindsMessageId(m: bytes, m2: bytes, s: bytes, d: bytes, t: bits64, p: bytes)
    ensures SignatureText(m, s, d, t, p) == SignatureText(m2, s, d, t, p) <==> m == m2
  {
    TextEnds(m, s, d, t, p);
    TextEnds(m2, s, d, t, p);
    hide SignatureText, Hex;
    var after := COLON + (s + (COLON + ((((d + COLON) + TimeText(t)) + COLON) + Hex(p))));
    Between([], m, m2, after);
    assert [] + m == m && [] + m2 == m2;
  }

  /** And so for the source. */
  lemma TextBindsSource(m: bytes, s: bytes, s2: bytes, d: bytes, t: bits64, p: bytes)
    ensures SignatureText(m, s, d, t, p) == SignatureText(m, s2, d, t, p) <==> s == s2
  {
    hide Hex;
    var before, after := m + COLON, COLON + d + COLON + TimeText(t) + COLON + Hex(p);
    assert SignatureText(m, s, d, t, p) == before + s + after;
    assert SignatureText(m, s2, d, t, p) == before + s2 + after;
    Between(before, s, s2, after);
  }

  /** And so for the destination. */
  lemma TextBindsDest(m: bytes, s: bytes, d: bytes, d2: bytes, t: bits64, p: bytes)
    ensures SignatureText(m, s, d, t, p) == SignatureText(m, s, d2, t, p) <==> d == d2
  {
    hide Hex;
    var before, after := m + COLON + s + COLON, COLON + TimeText(t) + COLON + Hex(p);
    assert SignatureText(m, s, d, t, p) == before + d + after;
    assert SignatureText(m, s, d2, t, p) == before + d2 + after;
    Between(before, d, d2, after);
  }

  /** And so for the timestamp. */
  lemma TextBindsTimestamp(m: bytes, s: bytes, d: bytes, t: bits64, t2: bits64, p: bytes)
    ensures SignatureText(m, s, d, t, p) == SignatureText(m, s, d, t2, p) <==> t == t2
  {
    hide Hex;
    var before, after := m + COLON + s + COLON + d + COLON, COLON + Hex(p);
    assert SignatureText(m, s, d, t, p) == before + TimeText(t) + after;
    assert SignatureText(m, s, d, t2, p) == before + TimeText(t2) + after;
    Between(before, TimeText(t), TimeText(t2), after);
    TimeTextInjective(t, t2);
  }

  /** And so for the payload. */
  lemma TextBindsPayload(m: bytes, s: bytes, d: bytes, t: bits64, p: bytes, p2: bytes)
    ensures SignatureText(m, s, d, t, p) == SignatureText(m, s, d, t, p2) <==> p == p2
  {
    HexInjective(p, p2);
    hide Hex;
    var before := m + COLON + s + COLON + d + COLON + TimeText(t) + COLON;
    assert SignatureText(m, s, d, t, p) == before + Hex(p) + [];
    assert SignatureText(m, s, d, t, p2) == before + Hex(p2) + [];
    Between(before, Hex(p), Hex(p2), []);
  }

  // ----- All fields at once -----

  /** What stands before the first colon, and what follows it, are determined. */
  lemma FirstColon(a: bytes, x: bytes, b: bytes, y: bytes)
    requires 58 !in a && 58 !in b
    ensures a + (COLON + x) == b + (COLON + y) <==> a == b && x == y
  {
    var s, t := a + (COLON + x), b + (COLON + y);
    if s == t {
      assert s[|a|] == 58 && t[|b|] == 58;
      assert forall k :: 0 <= k < |a| ==> s[k] in a;
      assert forall k :: 0 <= k < |b| ==> t[k] in b;
      assert |a| == |b|;
      assert s[..|a|] == a && t[..|a|] == b && s[|a| + 1..] == x && t[|a| + 1..] == y;
    }
  }

  /** And so for the last one. */
  lemma LastColon(x: bytes, a: bytes, y: bytes, b: bytes)
    requires 58 !in a && 58 !in b
    ensures (x + COLON) + a == (y + COLON) + b <==> x == y && a == b
  {
    var s, t := (x + COLON) + a, (y + COLON) + b;
    if s == t {
      assert s[|x|] == 58 && t[|y|] == 58;
      assert forall k :: |x| < k < |s| ==> s[k] in a;
      assert forall k :: |y| < k < |t| ==> t[k] in b;
      assert |x| == |y|;
      assert s[..|x|] == x && t[..|x|] == y && s[|x| + 1..] == a && t[|x| + 1..] == b;
    }
  }

  lemma {:induction false} HexPlain(b: bytes)
    ensures 58 !in Hex(b)
  {
    if b != [] {
      HexPlain(b[1..]);
    }
  }

  /** `did:key:` and a name without colons. */
  ghost predicate DidKey(s: bytes, name: bytes) {
    58 !in name && s == Ascii("did") + (COLON + (Ascii("key") + (COLON + name)))
  }

  lemma DidKeyThen(s: bytes, name: bytes, rest: bytes)
    requires DidKey(s, name)
    ensures s + (COLON + rest) == Ascii("did") + (COLON + (Ascii("key") + (COLON + (name + (COLON + rest)))))
  {
  }

  /** With a message id without colons and a `did:key` source, the signed text determines all its fields,
      whatever the destination. */
  lemma TextIdentifies(m: bytes, s: bytes, name: bytes, d: bytes, t: bits64, p: bytes,
                       m2: bytes, s2: bytes, name2: bytes, d2: bytes, t2: bits64, p2: bytes)
    requires 58 !in m && 58 !in m2 && DidKey(s, name) && DidKey(s2, name2)
    ensures SignatureText(m, s, d, t, p) == SignatureText(m2, s2, d2, t2, p2)
            <==> m == m2 && s == s2 && d == d2 && t == t2 && p == p2
  {
    if SignatureText(m, s, d, t, p) == SignatureText(m2, s2, d2, t2, p2) {
      var tail, tail2 := (d + COLON) + TimeText(t), (d2 + COLON) + TimeText(t2);
      var rest, rest2 := (tail + COLON) + Hex(p), (tail2 + COLON) + Hex(p2);
      TextEnds(m, s, d, t, p);
      TextEnds(m2, s2, d2, t2, p2);
      hide SignatureText;
      FirstColon(m, s + (COLON + rest), m2, s2 + (COLON + rest2));
      DidKeyThen(s, name, rest);
      DidKeyThen(s2, name2, rest2);
      var key := Ascii("key") + (COLON + (name + (COLON + rest)));
      var key2 := Ascii("key") + (COLON + (name2 + (COLON + rest2)));
      FirstColon(Ascii("did"), key, Ascii("did"), key2);
      FirstColon(Ascii("key"), name + (COLON + rest), Ascii("key"), name2 + (COLON + rest2));
      FirstColon(name, rest, name2, rest2);
      HexPlain(p);
      HexPlain(p2);
      LastColon(tail, Hex(p), tail2, Hex(p2));
      HexInjective(p, p2);
      TimeTextPlain(t);
      TimeTextPlain(t2);
      LastColon(d, TimeText(t), d2, TimeText(t2));
      TimeTextInjective(t, t2);
    }
  }

  lemma TextEnds(m: bytes, s: bytes, d: bytes, t: bits64, p: bytes)
    ensures SignatureText(m, s, d, t, p)
            == m + (COLON + (s + (COLON + ((((d + COLON) + TimeText(t)) + COLON) + Hex(p)))))
  {
  }

  /** Otherwise a colon can move from one field to the next. */
  lemma ColonMoves(a: bytes, b: bytes, c: bytes, d: bytes, t: bits64, p: bytes)
    ensures SignatureText(a + COLON + b, c, d, t, p) == SignatureText(a, b + COLON + c, d, t, p)
  {
  }

  /** The form of the text: `m:s:d:5:ab`. */
  lemma TextInstance()
    ensures SignatureText([109], [115], [100], 5, [0xAB]) == [109, 58, 115, 58, 100, 58, 53, 58, 97, 98]
  {
    assert Hex([0xAB]) == [97, 98] by {
      assert [0xAB][1..] == [] && Hex([]) == [];
    }
    assert TimeText(5) == [53] by {
      assert Decimal.OfInt(5) == "5";
    }
    hide Hex, TimeText;
    assert SignatureText([109], [115], [100], 5, [0xAB])
        == [109] + COLON + [115] + COLON + [100] + COLON + TimeText(5) + COLON + Hex([0xAB]) by {
      TimeTextIs(5);
    }
  }

  lemma TimeTextIs(t: bits64)
    ensures TimeText(t) == Ascii(Decimal.OfInt(FromBits(t)))
  {
  }
}
