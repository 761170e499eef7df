/**
 Texts as the script holds them: sequences of 16-bit units, where a character above U+FFFF takes two.
 The script cuts and searches by unit and counts by code point.
 */
module Utf16 {
  type unit = x: int | 0 <= x < 0x1_0000

  type units = seq<unit>

  predicate High(u: unit) { 0xD800 <= u < 0xDC00 }

  predicate Low(u: unit) { 0xDC00 <= u < 0xE000 }

  function OfChar(c: char): (r: units)
    ensures |r| == if c as int < 0x1_0000 then 1 else 2
    ensures c as int < 0x1_0000 ==> r[0] == c as int && !High(r[0])
    ensures c as int >= 0x1_0000 ==> High(r[0]) && Low(r[1]) && Joined(r[0], r[1]) == c as int
  {
    var n := c as int;
    if n < 0x1_0000 then [n] else [0xD800 + (n - 0x1_0000) / 0x400, 0xDC00 + (n - 0x1_0000) % 0x400]
  }

  /** The code point of a surrogate pair. */
  function Joined(high: unit, low: unit): int { 0x1_0000 + (high - 0xD800) * 0x400 + (low - 0xDC00) }

  function Encode(s: string): units {
    if s == "" then [] else OfChar(s[0]) + Encode(s[1..])
  }

  /** Spreading a string: a pair counts once, and a unit without its other half stands for itself. */
  function CodePoints(u: units): (r: seq<int>)
    ensures |r| <= |u|
  {
    if u == [] then []
    else if |u| > 1 && High(u[0]) && Low(u[1]) then [Joined(u[0], u[1])] + CodePoints(u[2..])
    else [u[0]] + CodePoints(u[1..])
  }

  lemma {:induction false} CodePointsOf(s: string)
    ensures CodePoints(Encode(s)) == seq(|s|, i requires 0 <= i < |s| => s[i] as int)
  {
    if s != "" {
      var head, tail := OfChar(s[0]), Encode(s[1..]);
      CodePointsOf(s[1..]);
      assert (head + tail)[|head|..] == tail;
    }
  }

  lemma EncodeInjective(s: string, t: string)
    ensures Encode(s) == Encode(t) <==> s == t
  {
    CodePointsOf(s);
    CodePointsOf(t);
    if Encode(s) == Encode(t) {
      var p, q := CodePoints(Encode(s)), CodePoints(Encode(t));
      assert |s| == |p| == |q| == |t|;
      forall i | 0 <= i < |s| ensures s[i] == t[i] {
        assert p[i] == s[i] as int && q[i] == t[i] as int;
      }
    }
  }

  lemma {:induction false} EncodeJoined(s: string, t: string)
    ensures Encode(s + t) == Encode(s) + Encode(t)
  {
    if s == "" {
      assert s + t == t;
    } else {
      assert (s + t)[1..] == s[1..] + t;
      EncodeJoined(s[1..], t);
    }
  }

  /** Cutting between two characters. */
  lemma EncodeCut(s: string, k: nat)
    requires k <= |s|
    ensures |Encode(s[..k])| <= |Encode(s)|
    ensures Encode(s)[..|Encode(s[..k])|] == Encode(s[..k]) && Encode(s)[|Encode(s[..k])|..] == Encode(s[k..])
  {
    assert s[..k] + s[k..] == s;
    EncodeJoined(s[..k], s[k..]);
  }

  lemma EncodeSnoc(s: string)
    requires s != ""
    ensures Encode(s) == Encode(s[..|s| - 1]) + OfChar(s[|s| - 1])
  {
    var c := s[|s| - 1];
    assert s == s[..|s| - 1] + [c];
    EncodeJoined(s[..|s| - 1], [c]);
    assert [c][1..] == "" && OfChar(c) + [] == OfChar(c);
  }

  // ----- Text below U+0080 -----

  predicate Ascii(s: string) { forall i :: 0 <= i < |s| ==> s[i] as int < 0x80 }

  function Codes(s: string): (u: units)
    requires Ascii(s)
    ensures |u| == |s| && forall i :: 0 <= i < |s| ==> u[i] == s[i] as int
  {
    seq(|s|, i requires 0 <= i < |s| => s[i] as int)
  }

  lemma {:induction false} EncodeAscii(s: string)
    requires Ascii(s)
    ensures Encode(s) == Codes(s)
  {
    if s != "" {
      EncodeAscii(s[1..]);
      assert Codes(s) == [s[0] as int] + Codes(s[1..]);
    }
  }

  lemma {:induction false} AsciiUnits(s: string)
    requires forall x :: x in Encode(s) ==> x < 0x80
    ensures Ascii(s)
  {
    if s != "" {
      var head, tail := OfChar(s[0]), Encode(s[1..]);
      assert head[0] in Encode(s);
      assert forall x :: x in tail ==> x in Encode(s);
      AsciiUnits(s[1..]);
      assert forall i :: 0 < i < |s| ==> s[i] == s[1..][i - 1];
    }
  }
}
