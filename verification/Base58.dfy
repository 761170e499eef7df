/**
 `did:key` identifiers: a raw Ed25519 public key behind its multicodec prefix, in base 58.
 */
module Base58 {
  import opened Wrappers
  import opened Bytes

  const ALPHABET := "123456789" + ("ABCDEFGH" + ("JKLMN" + ("PQRSTUVWXYZ" + ("abcdefghijk" + "mnopqrstuvwxyz"))))

  /** `ALPHABET[i]`: digits without zero, then capitals without I and O, then small letters without l. */
  function Symbol(i: nat): char
    requires i < 58
  {
    if i < 9 then ('1' as int + i) as char
    else if i < 17 then ('A' as int + (i - 9)) as char
    else if i < 22 then ('J' as int + (i - 17)) as char
    else if i < 33 then ('P' as int + (i - 22)) as char
    else if i < 44 then ('a' as int + (i - 33)) as char
    else ('m' as int + (i - 44)) as char
  }

  /** `ALPHABET.indexOf(c)`, or `None` where it gives -1. */
  function IndexOf(c: char): (r: Option<nat>)
    ensures r.Some? ==> r.value < 58 && Symbol(r.value) == c
  {
    var x := c as int;
    if '1' <= c <= '9' then Some(x - '1' as int)
    else if 'A' <= c <= 'H' then Some(x - 'A' as int + 9)
    else if 'J' <= c <= 'N' then Some(x - 'J' as int + 17)
    else if 'P' <= c <= 'Z' then Some(x - 'P' as int + 22)
    else if 'a' <= c <= 'k' then Some(x - 'a' as int + 33)
    else if 'm' <= c <= 'z' then Some(x - 'm' as int + 44)
    else None
  }

  lemma SymbolsAreAlphabet(i: nat)
    requires i < 58
    ensures |ALPHABET| == 58 && ALPHABET[i] == Symbol(i)
  {
    if i < 9 {
      assert ALPHABET[i] == "123456789"[i];
    } else if i < 17 {
      assert ALPHABET[i] == "ABCDEFGH"[i - 9];
    } else if i < 22 {
      assert ALPHABET[i] == "JKLMN"[i - 17];
    } else if i < 33 {
      assert ALPHABET[i] == "PQRSTUVWXYZ"[i - 22];
    } else if i < 44 {
      assert ALPHABET[i] == "abcdefghijk"[i - 33];
    } else {
      assert ALPHABET[i] == "mnopqrstuvwxyz"[i - 44];
    }
  }

  lemma IndexOfSymbol(i: nat)
    requires i < 58
    ensures IndexOf(Symbol(i)) == Some(i)
  {
  }

  // ----- Encoding -----

  /** `n` in base 58, most significant digit first, nothing for zero. */
  function Digits(n: nat): string {
    if n == 0 then "" else Digits(n / 58) + [Symbol(n % 58)]
  }

  function LeadingZeros(b: bytes): (n: nat)
    ensures n <= |b| && forall i :: 0 <= i < n ==> b[i] == 0
    ensures n < |b| ==> b[n] != 0
  {
    if b == [] || b[0] != 0 then 0
    else
      var m := LeadingZeros(b[1..]);
      assert forall i :: 0 < i < m + 1 ==> b[i] == b[1..][i - 1];
      m + 1
  }

  function Ones(n: nat): string {
    if n == 0 then "" else "1" + Ones(n - 1)
  }

  /** An empty byte string is refused: `0x` is not a number. */
  function Encode(b: bytes): Option<string> {
    if b == [] then None else Some(Ones(LeadingZeros(b)) + Digits(Number(b)))
  }

  lemma PrependDigit(n: nat, s: string)
    requires n > 0
    ensures Digits(n / 58) + ([Symbol(n % 58)] + s) == Digits(n) + s
  {
    hide Symbol;
  }

  lemma LeadingZerosNext(b: bytes, i: nat)
    requires i < |b|
    ensures b[i] != 0 ==> LeadingZeros(b[i..]) == 0
    ensures b[i] == 0 ==> LeadingZeros(b[i..]) == 1 + LeadingZeros(b[i + 1..])
  {
    assert b[i..][1..] == b[i + 1..];
  }

  method Base58Encode(b: bytes) returns (r: Option<string>)
    ensures r == Encode(b)
  {
    hide Number, Symbol, LeadingZeros, Digits;
    if b == [] {
      return None;
    }
    var value := Number(b);
    var out: string := "";
    assert Digits(value) + out == Digits(value);
    while value > 0
      invariant Digits(value) + out == Digits(Number(b))
      decreases value
    {
      PrependDigit(value, out);
      out := [Symbol(value % 58)] + out;
      value := value / 58;
    }
    NoDigits();
    var i := 0;
    assert b[0..] == b && Ones(0) + out == out;
    while i < |b|
      invariant i <= |b| && LeadingZeros(b) == i + LeadingZeros(b[i..])
      invariant out == Ones(i) + Digits(Number(b))
    {
      LeadingZerosNext(b, i);
      if b[i] != 0 {
        break;
      }
      assert "1" + (Ones(i) + Digits(Number(b))) == Ones(i + 1) + Digits(Number(b));
      out := "1" + out;
      i := i + 1;
    }
    return Some(out);
  }

  lemma NoDigits()
    ensures Digits(0) == ""
  {
  }

  // ----- Decoding -----

  /** Positional value, or `None` for a symbol outside the alphabet. */
  function Value(s: string): Option<nat> {
    if s == "" then Some(0)
    else
      match (Value(s[..|s| - 1]), IndexOf(s[|s| - 1]))
      case (Some(v), Some(i)) => Some(v * 58 + i)
      case _ => None
  }

  function LeadingOnes(s: string): (n: nat)
    ensures n <= |s|
  {
    if s == "" || s[0] != '1' then 0 else 1 + LeadingOnes(s[1..])
  }

  type nibble = x: int | 0 <= x < 16

  /** Hexadecimal digits, as `toString(16)` gives them. */
  function Hex(n: nat): (h: seq<nibble>)
    ensures h != []
  {
    if n < 16 then [n] else Hex(n / 16) + [n % 16]
  }

  function Even(h: seq<nibble>): (r: seq<nibble>)
    ensures |r| % 2 == 0
  {
    if |h| % 2 != 0 then [0] + h else h
  }

  /** The bytes spelled by pairs of hexadecimal digits. */
  function Pairs(h: seq<nibble>): bytes
    requires |h| % 2 == 0
  {
    if h == [] then [] else Pairs(h[..|h| - 2]) + [Byte(h[|h| - 2], h[|h| - 1])]
  }

  function Byte(high: nibble, low: nibble): byte {
    var a: int, b: int := high, low;
    a * 16 + b
  }

  function ZeroBytes(n: nat): bytes {
    if n == 0 then [] else [0] + ZeroBytes(n - 1)
  }

  function Decode(s: string): Option<bytes> {
    match Value(s)
    case None => None
    case Some(v) => Some(ZeroBytes(LeadingOnes(s)) + Pairs(Even(Hex(v))))
  }

  method Base58Decode(s: string) returns (r: Option<bytes>)
    ensures r == Decode(s)
  {
    hide Hex, Even, Pairs, IndexOf, ZeroBytes;
    var value: nat := 0;
    for i := 0 to |s|
      invariant Value(s[..i]) == Some(value)
    {
      assert s[..i + 1][..i] == s[..i];
      var index := IndexOf(s[i]);
      if index.None? {
        BadSymbol(s, i);
        return None;
      }
      value := value * 58 + index.value;
    }
    assert s[..|s|] == s;
    var leadingZeros: nat := 0;
    assert s[0..] == s;
    while leadingZeros < |s| && s[leadingZeros] == '1'
      invariant leadingZeros <= |s| && LeadingOnes(s) == leadingZeros + LeadingOnes(s[leadingZeros..])
    {
      assert s[leadingZeros..][1..] == s[leadingZeros + 1..];
      leadingZeros := leadingZeros + 1;
    }
    return Some(ZeroBytes(leadingZeros) + Pairs(Even(Hex(value))));
  }

  lemma {:induction false} BadSymbol(s: string, i: nat)
    requires i < |s| && IndexOf(s[i]) == None
    ensures Value(s) == None
    decreases |s|
  {
    if i < |s| - 1 {
      BadSymbol(s[..|s| - 1], i);
    }
  }

  // ----- Hexadecimal pairs are the bytes of the number -----

  /** Base 256, most significant byte first, at least one byte. */
  function Minimal(n: nat): (b: bytes)
    ensures b != []
  {
    if n < 256 then [n] else Minimal(n / 256) + [n % 256]
  }

  lemma HexStep(n: nat)
    requires n >= 256
    ensures Hex(n) == Hex(n / 256) + [n / 16 % 16, n % 16]
  {
    assert n / 16 / 16 == n / 256;
    assert Hex(n / 16) == Hex(n / 256) + [n / 16 % 16];
    assert Hex(n) == Hex(n / 16) + [n % 16];
  }

  lemma EvenTail(h: seq<nibble>, a: nibble, b: nibble)
    ensures Even(h + [a, b]) == Even(h) + [a, b]
  {
  }

  lemma PairsTail(h: seq<nibble>, a: nibble, b: nibble)
    requires |h| % 2 == 0
    ensures Pairs(h + [a, b]) == Pairs(h) + [Byte(a, b)]
  {
    var t := h + [a, b];
    assert t[..|t| - 2] == h && t[|t| - 2] == a && t[|t| - 1] == b;
  }

  lemma HexSmall(n: nat)
    requires n < 256
    ensures Pairs(Even(Hex(n))) == [n]
  {
    var a: nibble, b: nibble := n / 16, n % 16;
    HexOfSmall(n);
    hide Hex, Even;
    PairsTail([], a, b);
    assert [] + [a, b] == [a, b] && Pairs([]) == [];
  }

  lemma HexOfSmall(n: nat)
    requires n < 256
    ensures Even(Hex(n)) == [n / 16, n % 16]
  {
    if n >= 16 {
      assert Hex(n / 16) == [n / 16];
    }
  }

  lemma {:induction false} HexIsMinimal(n: nat)
    ensures Pairs(Even(Hex(n))) == Minimal(n)
    decreases n
  {
    if n < 256 {
      HexSmall(n);
    } else {
      HexStep(n);
      HexIsMinimal(n / 256);
      hide Hex, Pairs, Even;
      EvenTail(Hex(n / 256), n / 16 % 16, n % 16);
      PairsTail(Even(Hex(n / 256)), n / 16 % 16, n % 16);
      assert n / 16 % 16 * 16 + n % 16 == n % 256;
    }
  }

  // ----- Numbers and digits -----

  lemma {:induction false} NumberOfMinimal(n: nat)
    ensures Number(Minimal(n)) == n && (n > 0 ==> Minimal(n)[0] != 0)
  {
    var b := Minimal(n);
    if n < 256 {
      assert b[..0] == [];
    } else {
      assert b[..|b| - 1] == Minimal(n / 256);
      NumberOfMinimal(n / 256);
    }
  }

  lemma {:induction false} MinimalOfNumber(b: bytes)
    requires b != [] && b[0] != 0
    ensures Number(b) > 0 && Minimal(Number(b)) == b
  {
    var init := b[..|b| - 1];
    var last := b[|b| - 1];
    assert b == init + [last];
    assert Number(b) == Number(init) * 256 + last;
    if init == [] {
      MinimalSmall(last);
    } else {
      assert init[0] == b[0];
      MinimalOfNumber(init);
      hide Minimal, Number;
      MinimalStep(Number(init), last);
    }
  }

  lemma MinimalSmall(r: byte)
    ensures Minimal(r) == [r]
  {
  }

  lemma MinimalStep(q: nat, r: byte)
    requires q > 0
    ensures Minimal(q * 256 + r) == Minimal(q) + [r]
  {
    var last: int := r;
    var n := q * 256 + last;
    assert n / 256 == q && n % 256 == last;
  }

  lemma {:induction false} NumberSkipsZeros(b: bytes, n: nat)
    requires n <= |b| && forall i :: 0 <= i < n ==> b[i] == 0
    ensures Number(b) == Number(b[n..])
    decreases |b|
  {
    if |b| > n {
      var init := b[..|b| - 1];
      NumberSkipsZeros(init, n);
      assert b[n..][..|b| - n - 1] == init[n..];
    } else if b != [] {
      NumberSkipsZeros(b[..|b| - 1], n - 1);
      assert b[..|b| - 1][n - 1..] == [] && b[n..] == [];
    }
  }

  lemma {:induction false} ValueOfDigits(n: nat)
    ensures Value(Digits(n)) == Some(n) && (n > 0 ==> Digits(n) != "" && Digits(n)[0] != '1')
  {
    if n > 0 {
      var s := Digits(n);
      assert s[..|s| - 1] == Digits(n / 58);
      ValueOfDigits(n / 58);
      IndexOfSymbol(n % 58);
    }
  }

  lemma DigitsStep(v: nat, i: nat)
    requires i < 58 && v * 58 + i > 0
    ensures Digits(v * 58 + i) == Digits(v) + [Symbol(i)]
  {
    var n := v * 58 + i;
    assert n / 58 == v && n % 58 == i;
  }

  lemma {:induction false} DigitsOfValue(s: string)
    requires Value(s).Some? && (s != "" ==> s[0] != '1')
    ensures Digits(Value(s).value) == s && (s != "" ==> Value(s).value > 0)
  {
    if s != "" {
      var init := s[..|s| - 1];
      var i := IndexOf(s[|s| - 1]).value;
      assert s == init + [Symbol(i)];
      assert init != "" ==> init[0] == s[0];
      DigitsOfValue(init);
      assert Symbol(0) == '1';
      DigitsStep(Value(init).value, i);
    }
  }

  lemma {:induction false} ValueSkipsOnes(n: nat, s: string)
    requires Value(s).Some?
    ensures Value(Ones(n) + s) == Value(s)
    decreases n + |s|
  {
    OnesAreOnes(n);
    var t := Ones(n) + s;
    if s != "" {
      assert t[..|t| - 1] == Ones(n) + s[..|s| - 1];
      ValueSkipsOnes(n, s[..|s| - 1]);
    } else if n > 0 {
      assert t[..|t| - 1] == Ones(n - 1) + "" by {
        OnesAreOnes(n - 1);
      }
      ValueSkipsOnes(n - 1, "");
    }
  }

  lemma {:induction false} OnesAreOnes(n: nat)
    ensures |Ones(n)| == n && forall i :: 0 <= i < n ==> Ones(n)[i] == '1'
  {
    if n > 0 {
      OnesAreOnes(n - 1);
    }
  }

  lemma {:induction false} LeadingOnesExact(n: nat, s: string)
    requires s != "" ==> s[0] != '1'
    ensures LeadingOnes(Ones(n) + s) == n
  {
    if n == 0 {
      assert Ones(0) + s == s;
    } else {
      assert (Ones(n) + s)[1..] == Ones(n - 1) + s;
      LeadingOnesExact(n - 1, s);
    }
  }

  lemma {:induction false} ZeroBytesExact(b: bytes, n: nat)
    requires n <= |b| && forall i :: 0 <= i < n ==> b[i] == 0
    ensures ZeroBytes(n) + b[n..] == b
  {
    if n > 0 {
      ZeroBytesExact(b[1..], n - 1);
      assert b[1..][n - 1..] == b[n..] && b == [b[0]] + b[1..];
    } else {
      assert b[0..] == b;
    }
  }

  // ----- Main results -----

  /** What decoding makes of an encoding: all-zero strings come back one byte longer. */
  lemma DecodeOfEncode(b: bytes)
    requires b != []
    ensures LeadingZeros(b) < |b| ==> Decode(Encode(b).value) == Some(b)
    ensures LeadingZeros(b) == |b| ==> Decode(Encode(b).value) == Some(b + [0])
  {
    var n := LeadingZeros(b);
    var v := Number(b);
    NumberSkipsZeros(b, n);
    ValueOfDigits(v);
    ValueSkipsOnes(n, Digits(v));
    HexIsMinimal(v);
    ZeroBytesExact(b, n);
    if n < |b| {
      MinimalOfNumber(b[n..]);
      LeadingOnesExact(n, Digits(v));
    } else {
      assert b[n..] == [] && v == 0;
      LeadingOnesExact(n, "");
      assert ZeroBytes(n) + [] == ZeroBytes(n);
    }
  }

  /** Decoding undoes encoding exactly for byte strings with a nonzero byte. */
  lemma Base58RoundTrip(b: bytes)
    ensures Encode(b).Some? && Decode(Encode(b).value) == Some(b) <==> exists i :: 0 <= i < |b| && b[i] != 0
  {
    if b != [] {
      DecodeOfEncode(b);
      assert b + [0] != b;
      if LeadingZeros(b) < |b| {
        assert b[LeadingZeros(b)] != 0;
      }
    }
  }

  // ----- did:key -----

  const DID_PREFIX := "did:key:z"
  const ED25519_MULTICODEC: bytes := [0xED, 0x01]

  function PublicKeyToDid(key: bytes): Option<string> {
    match Encode(ED25519_MULTICODEC + key)
    case None => None
    case Some(text) => Some(DID_PREFIX + text)
  }

  function DidToPublicKeyRaw(did: string): Option<bytes> {
    if !(DID_PREFIX <= did) then None
    else
      match Decode(did[|DID_PREFIX|..])
      case None => None
      case Some(b) => if |b| != 34 || b[0] != 0xED || b[1] != 0x01 then None else Some(b[2..])
  }

  lemma DidOfKey(key: bytes)
    requires |key| == 32
    ensures PublicKeyToDid(key).Some? && DidToPublicKeyRaw(PublicKeyToDid(key).value) == Some(key)
  {
    var b := ED25519_MULTICODEC + key;
    assert b[0] == 0xED && b[1] == 0x01 && b[2..] == key;
    Base58RoundTrip(b);
    var text := Encode(b).value;
    assert (DID_PREFIX + text)[|DID_PREFIX|..] == text;
  }

  /** A text that decodes to bytes without a leading zero has no leading `1` and decodes to its value. */
  lemma DecodeOfPlain(s: string)
    requires Decode(s).Some? && Decode(s).value != [] && Decode(s).value[0] != 0
    ensures LeadingOnes(s) == 0 && Value(s).Some? && Decode(s).value == Minimal(Value(s).value)
  {
    hide Hex, Pairs, Even, IndexOf, Value, Minimal, LeadingOnes;
    HexIsMinimal(Value(s).value);
    assert ZeroBytes(0) + Minimal(Value(s).value) == Minimal(Value(s).value);
  }

  /** Hence it is the encoding of those bytes. */
  lemma EncodeOfDecode(s: string)
    requires Decode(s).Some? && Decode(s).value != [] && Decode(s).value[0] != 0
    ensures Encode(Decode(s).value) == Some(s)
  {
    DecodeOfPlain(s);
    hide Decode, Hex, Pairs, Even, IndexOf, Minimal, Digits, Number;
    var v := Value(s).value;
    NumberOfMinimal(v);
    DigitsOfValue(s);
    assert Ones(0) + Digits(v) == Digits(v);
  }

  /** Public keys and accepted DIDs correspond one to one: a DID yields a key exactly when it is the DID
      of that 32-byte key. */
  lemma DidsAreKeys(did: string, key: bytes)
    ensures DidToPublicKeyRaw(did) == Some(key) <==> |key| == 32 && PublicKeyToDid(key) == Some(did)
  {
    if DidToPublicKeyRaw(did) == Some(key) {
      var text := did[|DID_PREFIX|..];
      var b := Decode(text).value;
      assert b == ED25519_MULTICODEC + key && b[0] == 0xED;
      EncodeOfDecode(text);
      assert did == DID_PREFIX + text;
    }
    if |key| == 32 {
      DidOfKey(key);
    }
  }
}
