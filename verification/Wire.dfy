/**
 Length-prefixed frames: a varint with the length, then the bytes of an envelope; and the reader that
 puts frames back together from chunks cut anywhere.
 */
module Wire {
  import opened Wrappers
  import opened Bytes

  const MAX_FHS_FRAME_BYTES: nat := 16 * 1024 * 1024

  // ----- Base 128 varints -----

  function EncodeVarint(n: nat): (r: bytes)
    ensures r != []
  {
    if n < 128 then [n] else [n % 128 + 128] + EncodeVarint(n / 128)
  }

  /** The varint at the front of `s`, of at most `limit` bytes, and how many bytes it takes. */
  function Varint(s: bytes, limit: nat): (r: Option<(nat, nat)>)
    ensures r.Some? ==> 1 <= r.value.1 <= limit && r.value.1 <= |s|
    decreases limit, |s|
  {
    if s == [] || limit == 0 then None
    else if s[0] < 128 then Some((s[0], 1))
    else
      match Varint(s[1..], limit - 1)
      case None => None
      case Some((v, n)) =>
        var low: int := s[0];
        Some((low - 128 + 128 * v, n + 1))
  }

  function Pow128(n: nat): nat {
    if n == 0 then 1 else 128 * Pow128(n - 1)
  }

  lemma EncodeVarintStep(out: bytes, n: nat)
    ensures n / 128 > 0 ==> out + EncodeVarint(n) == out + [n % 128 + 128] + EncodeVarint(n / 128)
    ensures n / 128 == 0 ==> out + EncodeVarint(n) == out + [n % 128]
  {
    if n >= 128 {
      Concat(out, [n % 128 + 128], EncodeVarint(n / 128));
    }
  }

  method EncodeVarintLoop(value: nat) returns (out: bytes)
    ensures out == EncodeVarint(value)
  {
    out := [];
    var remaining := value;
    var more := true;
    Concat([], [], EncodeVarint(value));
    while more
      invariant EncodeVarint(value) == if more then out + EncodeVarint(remaining) else out
      decreases more, remaining
    {
      EncodeVarintStep(out, remaining);
      var next := remaining % 128;
      remaining := remaining / 128;
      more := remaining > 0;
      out := out + [if more then next + 128 else next];
    }
  }

  /** `value` and `multiplier` account for the bytes read so far. */
  function Shifted(value: nat, multiplier: nat, read: nat, r: Option<(nat, nat)>): Option<(nat, nat)> {
    match r
    case None => None
    case Some((v, n)) => Some((value + multiplier * v, read + n))
  }

  lemma ShiftedStep(value: nat, multiplier: nat, read: nat, s: bytes, limit: nat)
    requires s != [] && limit > 0
    ensures Shifted(value, multiplier, read, Varint(s, limit))
            == if s[0] < 128 then Some((value + s[0] % 128 * multiplier, read + 1))
               else Shifted(value + s[0] % 128 * multiplier, multiplier * 128, read + 1, Varint(s[1..], limit - 1))
  {
    var digit: nat := s[0] % 128;
    if s[0] < 128 {
      SmallDigit(s[0]);
      Commute(multiplier, digit);
    } else {
      LowDigit(s[0]);
      if Varint(s[1..], limit - 1).Some? {
        Distribute(multiplier, digit, Varint(s[1..], limit - 1).value.0);
      }
    }
  }

  lemma Commute(a: nat, b: nat)
    ensures a * b == b * a
  {
  }

  lemma Distribute(m: nat, low: nat, v: nat)
    ensures m * (low + 128 * v) == low * m + m * 128 * v
  {
  }

  lemma SmallDigit(b: byte)
    requires b < 128
    ensures b % 128 == b
  {
  }

  lemma LowDigit(b: byte)
    requires b >= 128
    ensures var low: int := b; low % 128 == low - 128
  {
  }

  /** Reading on from the front of `s`, having read `read` bytes worth `value`. */
  function Accumulate(s: bytes, limit: nat, value: nat, multiplier: nat, read: nat): Option<(nat, nat)>
    decreases limit, |s|
  {
    if s == [] || limit == 0 then None
    else
      var value2 := value + s[0] % 128 * multiplier;
      if s[0] < 128 then Some((value2, read + 1))
      else Accumulate(s[1..], limit - 1, value2, multiplier * 128, read + 1)
  }

  lemma {:induction false} AccumulateIsVarint(s: bytes, limit: nat, value: nat, multiplier: nat, read: nat)
    ensures Accumulate(s, limit, value, multiplier, read) == Shifted(value, multiplier, read, Varint(s, limit))
    decreases limit
  {
    if s != [] && limit > 0 {
      ShiftedStep(value, multiplier, read, s, limit);
      if s[0] >= 128 {
        AccumulateIsVarint(s[1..], limit - 1, value + s[0] % 128 * multiplier, multiplier * 128, read + 1);
      }
    }
  }

  /** The TypeScript decoder: at most eight bytes. */
  method DecodeVarint(s: bytes) returns (r: Option<(nat, nat)>)
    ensures r == Varint(s, 8)
  {
    AccumulateIsVarint(s, 8, 0, 1, 0);
    var value: nat, multiplier: nat, index: nat := 0, 1, 0;
    assert s[0..] == s;
    while index < |s| && index < 8
      invariant index <= |s| && index <= 8
      invariant Accumulate(s, 8, 0, 1, 0) == Accumulate(s[index..], 8 - index, value, multiplier, index)
      decreases 8 - index
    {
      var b := s[index];
      assert s[index..][0] == b && s[index..][1..] == s[index + 1..];
      value := value + b % 128 * multiplier;
      if b < 128 {
        return Some((value, index + 1));
      }
      multiplier := multiplier * 128;
      index := index + 1;
    }
    return None;
  }

  datatype Length = Closed | BadLength | Length(value: nat, rest: bytes)

  /** `value | (digit << shift)` on 64-bit words, where `multiplier` is `1 << shift` and exceeds `value`. */
  function OrShifted(value: nat, digit: nat, multiplier: nat): nat {
    value + digit * multiplier % TWO_64
  }

  /** The reader's loop: `count` bytes read, worth `value`, the next one weighs `multiplier`. */
  function RustAccumulate(s: bytes, count: nat, value: nat, multiplier: nat): Length
    decreases 10 - count, |s|
  {
    if count >= 10 then BadLength
    else if s == [] then (if count == 0 then Closed else BadLength)
    else
      var value2 := OrShifted(value, s[0] % 128, multiplier);
      if s[0] < 128 then Length(value2, s[1..])
      else RustAccumulate(s[1..], count + 1, value2, multiplier * 128)
  }

  lemma NoWrap(value: nat, digit: nat, m: nat)
    requires value < m && digit < 128 && 128 * m <= 0x8000_0000_0000_0000
    ensures OrShifted(value, digit, m) == value + digit * m < 128 * m
    ensures (value + digit * m) % TWO_64 == value + digit * m
  {
    assert digit * m <= 127 * m;
  }

  lemma LastDigit(value: nat, digit: nat)
    requires value < 0x8000_0000_0000_0000 && digit < 128
    ensures OrShifted(value, digit, 0x8000_0000_0000_0000) == (value + digit * 0x8000_0000_0000_0000) % TWO_64
  {
  }

  lemma TopPowers(count: nat)
    requires count < 10
    ensures count < 9 ==> 128 * Pow128(count) <= 0x8000_0000_0000_0000
    ensures count == 9 ==> Pow128(count) == 0x8000_0000_0000_0000
  {
    EightBytes();
    assert Pow128(9) == 128 * Pow128(8);
    if count < 9 {
      Pow128Monotone(count + 1, 9);
    }
  }

  /** One byte more: nothing is lost but what exceeds 64 bits in the tenth byte. */
  lemma RustStep(s: bytes, count: nat, value: nat)
    requires s != [] && count < 10 && value < Pow128(count)
    ensures var total := value + s[0] % 128 * Pow128(count);
            RustAccumulate(s, count, value, Pow128(count))
            == (if s[0] < 128 then Length(total % TWO_64, s[1..])
                else if count == 9 then BadLength
                else RustAccumulate(s[1..], count + 1, total, Pow128(count + 1)))
    ensures count < 9 ==> value + s[0] % 128 * Pow128(count) < Pow128(count + 1)
  {
    TopPowers(count);
    if count < 9 {
      NoWrap(value, s[0] % 128, Pow128(count));
    } else {
      LastDigit(value, s[0] % 128);
    }
  }

  /** `m` is the weight of the byte after `count` of them. */
  ghost predicate Weighs(m: nat, count: nat) { m == Pow128(count) }

  /** What `value` so far and `v` in bytes of weight `m` amount to in 64 bits. */
  function Joined(value: nat, v: nat, m: nat): nat { (value + v * m) % TWO_64 }

  lemma Combine(value: nat, low: nat, m: nat, v: nat)
    requires low >= 128
    ensures Joined(value + (low - 128) * m, v, 128 * m) == Joined(value, low - 128 + 128 * v, m)
  {
    var digit := low - 128;
    assert (digit + 128 * v) * m == digit * m + v * (128 * m);
  }

  lemma RustByte(s: bytes, count: nat, value: nat, m: nat)
    requires s != [] && count < 10 && value < m && Weighs(m, count)
    ensures var total := value + s[0] % 128 * m;
            RustAccumulate(s, count, value, m)
            == (if s[0] < 128 then Length(total % TWO_64, s[1..])
                else if count == 9 then BadLength
                else RustAccumulate(s[1..], count + 1, total, 128 * m))
    ensures count < 9 ==> value + s[0] % 128 * m < 128 * m && Weighs(128 * m, count + 1)
  {
    RustStep(s, count, value);
  }

  /** What the loop makes of the rest of a varint. */
  function Accumulated(s: bytes, count: nat, value: nat, m: nat): Length
    requires count < 10
  {
    match Varint(s, 10 - count)
    case None => BadLength
    case Some((v, n)) => Length(Joined(value, v, m), s[n..])
  }

  lemma LastByte(s: bytes, count: nat, value: nat, m: nat)
    requires s != [] && s[0] < 128 && count < 10 && value < m && Weighs(m, count)
    ensures RustAccumulate(s, count, value, m) == Accumulated(s, count, value, m)
  {
    RustByte(s, count, value, m);
    assert s[0] % 128 == s[0];
    hide RustAccumulate, Weighs;
  }

  lemma OneMoreByte(s: bytes, count: nat, value: nat, m: nat)
    requires s != [] && s[0] >= 128 && count < 9
    ensures var low: int := s[0];
            Accumulated(s, count, value, m) == Accumulated(s[1..], count + 1, value + (low - 128) * m, 128 * m)
  {
    var low: nat := s[0];
    hide Joined;
    if Varint(s[1..], 9 - count).Some? {
      var (v, n) := Varint(s[1..], 9 - count).value;
      Combine(value, low, m, v);
      assert s[1..][n..] == s[n + 1..];
    }
  }

  lemma ByteContinues(s: bytes, count: nat, value: nat, m: nat)
    requires s != [] && s[0] >= 128 && count < 9 && value < m && Weighs(m, count)
    ensures var low: int := s[0];
            var next := value + (low - 128) * m;
            && 0 <= next < 128 * m && Weighs(128 * m, count + 1)
            && RustAccumulate(s, count, value, m) == RustAccumulate(s[1..], count + 1, next, 128 * m)
  {
    hide RustAccumulate, Weighs;
    LowDigit(s[0]);
    RustByte(s, count, value, m);
  }

  lemma NothingAccumulates(s: bytes, count: nat, value: nat, m: nat)
    requires count < 10 && value < m && Weighs(m, count)
    requires (s == [] && count > 0) || (s != [] && s[0] >= 128 && count == 9)
    ensures RustAccumulate(s, count, value, m) == BadLength == Accumulated(s, count, value, m)
  {
    if s != [] {
      RustByte(s, count, value, m);
      assert Varint(s[1..], 0) == None;
    }
  }

  lemma {:induction false} RustAccumulates(s: bytes, count: nat, value: nat, m: nat)
    requires count < 10 && value < m && Weighs(m, count) && (count > 0 || s != [])
    ensures RustAccumulate(s, count, value, m) == Accumulated(s, count, value, m)
    decreases 10 - count
  {
    hide RustAccumulate, Weighs, Accumulated;
    if s == [] || (s[0] >= 128 && count == 9) {
      NothingAccumulates(s, count, value, m);
    } else if s[0] < 128 {
      LastByte(s, count, value, m);
    } else {
      var low: nat := s[0];
      ByteContinues(s, count, value, m);
      OneMoreByte(s, count, value, m);
      RustAccumulates(s[1..], count + 1, value + (low - 128) * m, 128 * m);
    }
  }

  lemma RustAccumulateIsLength(s: bytes)
    ensures RustAccumulate(s, 0, 0, 1) == RustLength(s)
  {
    if s != [] {
      RustAccumulates(s, 0, 0, 1);
    }
  }

  /** The Rust reader: at most ten bytes, in 64-bit arithmetic that drops what is shifted out. */
  method ReadVarint(stream: bytes) returns (r: Length)
    ensures r == RustLength(stream)
  {
    RustAccumulateIsLength(stream);
    var value: nat, multiplier: nat, count: nat := 0, 1, 0;
    assert stream[0..] == stream;
    while count < 10
      invariant count <= 10 && count <= |stream|
      invariant RustAccumulate(stream, 0, 0, 1) == RustAccumulate(stream[count..], count, value, multiplier)
      decreases 10 - count
    {
      if count == |stream| {
        return if count == 0 then Closed else BadLength;
      }
      var b := stream[count];
      assert stream[count..][0] == b && stream[count..][1..] == stream[count + 1..];
      value := OrShifted(value, b % 128, multiplier);
      if b < 128 {
        return Length(value, stream[count + 1..]);
      }
      multiplier := multiplier * 128;
      count := count + 1;
    }
    return BadLength;
  }

  function RustLength(s: bytes): Length {
    if s == [] then Closed
    else
      match Varint(s, 10)
      case None => BadLength
      case Some((v, n)) => Length(v % TWO_64, s[n..])
  }

  // ----- Decoding undoes encoding -----

  /** How many bytes `n` takes. */
  function VarintSize(n: nat): nat {
    if n < 128 then 1 else 1 + VarintSize(n / 128)
  }

  lemma {:induction false} VarintRoundTrip(n: nat, limit: nat, rest: bytes)
    requires VarintSize(n) <= limit
    ensures |EncodeVarint(n)| == VarintSize(n)
    ensures Varint(EncodeVarint(n) + rest, limit) == Some((n, VarintSize(n)))
  {
    var s := EncodeVarint(n) + rest;
    if n >= 128 {
      assert s[1..] == EncodeVarint(n / 128) + rest;
      VarintRoundTrip(n / 128, limit - 1, rest);
    }
  }

  lemma {:induction false} VarintBound(s: bytes, limit: nat)
    requires Varint(s, limit).Some?
    ensures Varint(s, limit).value.0 < Pow128(Varint(s, limit).value.1)
  {
    if s[0] >= 128 {
      VarintBound(s[1..], limit - 1);
    }
  }

  /** Only the front matters. */
  lemma {:induction false} VarintExtend(s: bytes, t: bytes, limit: nat)
    requires Varint(s, limit).Some?
    ensures Varint(s + t, limit) == Varint(s, limit)
  {
    if s[0] >= 128 {
      assert (s + t)[1..] == s[1..] + t;
      VarintExtend(s[1..], t, limit - 1);
    }
  }

  lemma {:induction false} VarintLimit(s: bytes, limit: nat, larger: nat)
    requires limit <= larger
    ensures Varint(s, limit).Some? <==> Varint(s, larger).Some? && Varint(s, larger).value.1 <= limit
    ensures Varint(s, limit).Some? ==> Varint(s, limit) == Varint(s, larger)
    decreases limit
  {
    if s != [] && limit > 0 && s[0] >= 128 {
      VarintLimit(s[1..], limit - 1, larger - 1);
    }
  }

  lemma Pow128Monotone(m: nat, n: nat)
    requires m <= n
    ensures Pow128(m) <= Pow128(n)
    decreases n - m
  {
    if m < n {
      Pow128Monotone(m + 1, n);
    }
  }

  lemma EightBytes()
    ensures Pow128(8) == 0x100_0000_0000_0000
  {
    assert Pow128(4) == 0x1000_0000;
    assert Pow128(8) == 128 * (128 * (128 * (128 * Pow128(4))));
  }

  /** The two decoders give the same length exactly when the prefix takes at most eight bytes; beyond
      that the TypeScript one refuses what the Rust one may still read. */
  lemma DecodersAgree(s: bytes)
    requires RustLength(s).Length?
    ensures (Varint(s, 8).Some? && Varint(s, 8).value.0 == RustLength(s).value
            && s[Varint(s, 8).value.1..] == RustLength(s).rest)
            <==> Varint(s, 10).value.1 <= 8
    ensures Varint(s, 10).value.1 > 8 ==> Varint(s, 8) == None
  {
    VarintLimit(s, 8, 10);
    if Varint(s, 8).Some? {
      VarintBound(s, 8);
      Pow128Monotone(Varint(s, 8).value.1, 8);
      EightBytes();
    }
  }

  // ----- Frames -----

  datatype FrameResult = Frame(payload: bytes, consumed: nat) | Incomplete | TooLarge

  /** One frame at the front of `s`. An unfinished varint counts as incomplete. */
  function DecodeLengthPrefixed(s: bytes): (r: FrameResult)
    ensures r.Frame? ==> 0 < r.consumed <= |s|
  {
    match Varint(s, 8)
    case None => Incomplete
    case Some((length, n)) =>
      if length > MAX_FHS_FRAME_BYTES then TooLarge
      else if |s| < n + length then Incomplete
      else Frame(s[n..n + length], n + length)
  }

  /** The frame of a payload, if it is not too large. */
  function EncodeLengthPrefixed(payload: bytes): Option<bytes> {
    if |payload| > MAX_FHS_FRAME_BYTES then None else Some(EncodeVarint(|payload|) + payload)
  }

  lemma {:induction false} VarintSizeBound(n: nat, limit: nat)
    requires limit > 0 && n < Pow128(limit)
    ensures VarintSize(n) <= limit
  {
    if n >= 128 {
      assert n / 128 < Pow128(limit - 1);
      VarintSizeBound(n / 128, limit - 1);
    }
  }

  /** A frame is judged by the length it announces: over the limit it is refused, whatever follows. */
  lemma FrameByLength(n: nat, rest: bytes)
    requires n < 0x100_0000_0000_0000
    ensures var r := DecodeLengthPrefixed(EncodeVarint(n) + rest);
            && (r.TooLarge? <==> n > 16_777_216)
            && (r.Incomplete? <==> |rest| < n <= 16_777_216)
            && (r.Frame? <==> n <= 16_777_216 && n <= |rest|)
            && (r.Frame? ==> r.payload == rest[..n] && r.consumed == |EncodeVarint(n)| + n)
  {
    EightBytes();
    VarintSizeBound(n, 8);
    VarintRoundTrip(n, 8, rest);
    var s, k := EncodeVarint(n) + rest, |EncodeVarint(n)|;
    if n <= |rest| {
      assert s[k..k + n] == rest[..n];
    }
  }

  lemma FrameSize(n: nat)
    requires n <= MAX_FHS_FRAME_BYTES
    ensures VarintSize(n) <= 4
  {
    var a := n / 128;
    var b := a / 128;
    var c := b / 128;
    assert c < 128 && VarintSize(c) == 1;
    assert VarintSize(b) <= 2;
    assert VarintSize(a) <= 3;
  }

  /** Decoding undoes encoding, whatever follows the frame. */
  lemma FrameRoundTrip(payload: bytes, rest: bytes)
    requires |payload| <= MAX_FHS_FRAME_BYTES
    ensures var frame := EncodeLengthPrefixed(payload).value;
            DecodeLengthPrefixed(frame + rest) == Frame(payload, |frame|)
  {
    var prefix := EncodeVarint(|payload|);
    FrameSize(|payload|);
    assert prefix + payload + rest == prefix + (payload + rest);
    VarintRoundTrip(|payload|, 8, payload + rest);
    assert (prefix + (payload + rest))[|prefix|..|prefix| + |payload|] == payload;
  }

  /** A frame once recognised, or refused, stays so when more bytes arrive. */
  lemma FrameExtend(s: bytes, t: bytes)
    requires !DecodeLengthPrefixed(s).Incomplete?
    ensures DecodeLengthPrefixed(s + t) == DecodeLengthPrefixed(s)
  {
    VarintExtend(s, t, 8);
    var (length, n) := Varint(s, 8).value;
    if length <= MAX_FHS_FRAME_BYTES {
      assert (s + t)[n..n + length] == s[n..n + length];
    }
  }

  // ----- Reassembly -----

  const MAX_FRAME_BYTES: nat := 8 * 1024

  /** What the reader makes of a buffer: the envelopes in it, what is left, and whether all was well. */
  datatype Drained<+E> = Drained(envelopes: seq<E>, rest: bytes, ok: bool)

  function Cons<E>(e: E, d: Drained<E>): Drained<E> {
    d.(envelopes := [e] + d.envelopes)
  }

  function Prepend<E>(es: seq<E>, d: Drained<E>): Drained<E> {
    d.(envelopes := es + d.envelopes)
  }

  lemma PrependCons<E>(es: seq<E>, e: E, d: Drained<E>)
    ensures Prepend(es, Cons(e, d)) == Prepend(es + [e], d)
  {
    assert es + ([e] + d.envelopes) == es + [e] + d.envelopes;
  }

  /** Take frames off the front while they are complete; `decode` turns a payload into an envelope. */
  function Drain<E>(decode: bytes -> Option<E>, s: bytes): Drained<E>
    decreases |s|
  {
    if s == [] then Drained([], [], true)
    else
      match DecodeLengthPrefixed(s)
      case Incomplete => Drained([], s, true)
      case TooLarge => Drained([], s, false)
      case Frame(payload, n) =>
        match decode(payload)
        case None => Drained([], s, false)
        case Some(e) => Cons(e, Drain(decode, s[n..]))
  }

  /** Reading a stream in two parts is reading it whole, unless the first part already failed. */
  lemma {:induction false} DrainSplit<E>(decode: bytes -> Option<E>, s: bytes, t: bytes)
    ensures var first := Drain(decode, s);
            !first.ok ==> !Drain(decode, s + t).ok && Drain(decode, s + t).envelopes == first.envelopes
    ensures var first := Drain(decode, s);
            var second := Drain(decode, first.rest + t);
            first.ok ==> Drain(decode, s + t) == Prepend(first.envelopes, second)
    decreases |s|
  {
    var r := DecodeLengthPrefixed(s);
    if s == [] || r.Incomplete? {
      var second := Drain(decode, Drain(decode, s).rest + t);
      assert [] + second.envelopes == second.envelopes;
    } else {
      FrameExtend(s, t);
      if r.Frame? && decode(r.payload).Some? {
        assert (s + t)[r.consumed..] == s[r.consumed..] + t;
        DrainSplit(decode, s[r.consumed..], t);
        var e, inner := decode(r.payload).value, Drain(decode, s[r.consumed..]);
        var second := Drain(decode, inner.rest + t);
        assert [e] + (inner.envelopes + second.envelopes) == [e] + inner.envelopes + second.envelopes;
      }
    }
  }

  /** The frames of a list of payloads, end to end. */
  function Frames(payloads: seq<bytes>): bytes {
    if payloads == [] then [] else EncodeVarint(|payloads[0]|) + payloads[0] + Frames(payloads[1..])
  }

  /** The envelopes of a list of payloads. */
  function Envelopes<E>(decode: bytes -> Option<E>, payloads: seq<bytes>): seq<E>
    requires forall i :: 0 <= i < |payloads| ==> decode(payloads[i]).Some?
  {
    if payloads == [] then [] else [decode(payloads[0]).value] + Envelopes(decode, payloads[1..])
  }

  /** A stream of valid frames is read exactly, with nothing left. */
  lemma {:induction false} DrainFrames<E>(decode: bytes -> Option<E>, payloads: seq<bytes>)
    requires forall i :: 0 <= i < |payloads| ==> decode(payloads[i]).Some? && |payloads[i]| <= MAX_FHS_FRAME_BYTES
    ensures Drain(decode, Frames(payloads)) == Drained(Envelopes(decode, payloads), [], true)
  {
    if payloads != [] {
      FrameRoundTrip(payloads[0], Frames(payloads[1..]));
      var frame := EncodeVarint(|payloads[0]|) + payloads[0];
      assert (frame + Frames(payloads[1..]))[|frame|..] == Frames(payloads[1..]);
      DrainFrames(decode, payloads[1..]);
    }
  }

  class FrameReader<E> {
    const decode: bytes -> Option<E>
    var buffer: bytes
    var failed: bool
    /** Everything fed so far, and every envelope given out. */
    ghost var received: bytes
    ghost var emitted: seq<E>

    /** How the bytes were cut into chunks leaves no trace. */
    ghost predicate Valid() reads this {
      !failed ==> Drain(decode, received) == Drained(emitted, buffer, true)
    }

    constructor (decode: bytes -> Option<E>)
      ensures Valid() && !failed && received == [] && emitted == [] && this.decode == decode
    {
      this.decode, buffer, failed, received, emitted := decode, [], false, [], [];
    }

    /** One turn of the reading loop. It gives out the envelopes before the first bad frame, and fails exactly
        when the joined buffer is over the limit, which gives out nothing, or when the stream so far holds a
        frame that is too large or not an envelope. */
    method Feed(chunk: bytes) returns (out: seq<E>)
      requires Valid() && !failed
      modifies this
      ensures Valid() && received == old(received) + chunk && emitted == old(emitted) + out
      ensures failed <==> |old(buffer)| + |chunk| > MAX_FRAME_BYTES || !Drain(decode, received).ok
      ensures if |old(buffer)| + |chunk| > MAX_FRAME_BYTES then out == [] && buffer == old(buffer) + chunk
              else Drain(decode, old(buffer) + chunk) == Drained(out, buffer, !failed)
    {
      ghost var before := buffer;
      assert before == old(buffer);
      received := received + chunk;
      DrainSplit(decode, old(received), chunk);
      out := [];
      buffer := buffer + chunk;
      if |buffer| > MAX_FRAME_BYTES {
        failed := true;
        return;
      }
      while |buffer| > 0
        invariant Drain(decode, before + chunk) == Prepend(out, Drain(decode, buffer))
        invariant received == old(received) + chunk && emitted == old(emitted) && !failed
        decreases |buffer|
      {
        var decoded := DecodeLengthPrefixed(buffer);
        if decoded.Incomplete? {
          break;
        }
        if decoded.TooLarge? || decode(decoded.payload).None? {
          assert out + [] == out;
          emitted := emitted + out;
          failed := true;
          return;
        }
        var envelope := decode(decoded.payload).value;
        buffer := buffer[decoded.consumed..];
        PrependCons(out, envelope, Drain(decode, buffer));
        out := out + [envelope];
      }
      assert out + [] == out;
      emitted := emitted + out;
    }
  }

  // ----- Any way of cutting a stream -----

  function Join(chunks: seq<bytes>): bytes {
    if chunks == [] then [] else chunks[0] + Join(chunks[1..])
  }

  /** The buffer never exceeds the limit when the chunks arrive after `pending` was left over. */
  ghost predicate WithinLimit<E>(decode: bytes -> Option<E>, pending: bytes, chunks: seq<bytes>)
    decreases |chunks|
  {
    chunks == [] ||
    (|pending| + |chunks[0]| <= MAX_FRAME_BYTES
     && WithinLimit(decode, Drain(decode, pending + chunks[0]).rest, chunks[1..]))
  }

  /** What reading the chunks one by one gives, `pending` being left over from before: it stops at the
      first chunk that overflows the buffer or spoils the stream. */
  function FeedAll<E>(decode: bytes -> Option<E>, pending: bytes, chunks: seq<bytes>): Drained<E>
    decreases |chunks|
  {
    if chunks == [] then Drained([], pending, true)
    else if |pending| + |chunks[0]| > MAX_FRAME_BYTES then Drained([], pending + chunks[0], false)
    else
      var d := Drain(decode, pending + chunks[0]);
      if d.ok then Prepend(d.envelopes, FeedAll(decode, d.rest, chunks[1..])) else d
  }

  lemma PrependPrepend<E>(es: seq<E>, fs: seq<E>, d: Drained<E>)
    ensures Prepend(es, Prepend(fs, d)) == Prepend(es + fs, d)
  {
    assert es + (fs + d.envelopes) == es + fs + d.envelopes;
  }

  /** The reader over a whole stream. */
  method ReadStream<E>(decode: bytes -> Option<E>, chunks: seq<bytes>)
      returns (envelopes: seq<E>, left: bytes, ok: bool)
    ensures FeedAll(decode, [], chunks) == Drained(envelopes, left, ok)
  {
    var reader := new FrameReader<E>(decode);
    envelopes := [];
    assert chunks[0..] == chunks && Prepend([], FeedAll(decode, [], chunks)) == FeedAll(decode, [], chunks);
    for i := 0 to |chunks|
      invariant reader.Valid() && !reader.failed && reader.emitted == envelopes && reader.decode == decode
      invariant fresh(reader)
      invariant FeedAll(decode, [], chunks) == Prepend(envelopes, FeedAll(decode, reader.buffer, chunks[i..]))
    {
      assert chunks[i..][0] == chunks[i] && chunks[i..][1..] == chunks[i + 1..];
      var out := reader.Feed(chunks[i]);
      assert out + [] == out;
      envelopes := envelopes + out;
      if reader.failed {
        return envelopes, reader.buffer, false;
      }
      PrependPrepend(envelopes[..|envelopes| - |out|], out, FeedAll(decode, reader.buffer, chunks[i + 1..]));
    }
    assert envelopes + [] == envelopes;
    return envelopes, reader.buffer, true;
  }

  /** What is left over is itself an unfinished frame. */
  lemma {:induction false} RestUnfinished<E>(decode: bytes -> Option<E>, s: bytes)
    requires Drain(decode, s).ok
    ensures var rest := Drain(decode, s).rest; Drain(decode, rest) == Drained([], rest, true)
    decreases |s|
  {
    if s != [] && DecodeLengthPrefixed(s).Frame? {
      RestUnfinished(decode, s[DecodeLengthPrefixed(s).consumed..]);
    }
  }

  lemma {:induction false} FeedAllIsDrain<E>(decode: bytes -> Option<E>, pending: bytes, chunks: seq<bytes>)
    requires Drain(decode, pending) == Drained([], pending, true) && Drain(decode, pending + Join(chunks)).ok
    ensures FeedAll(decode, pending, chunks).ok <==> WithinLimit(decode, pending, chunks)
    ensures WithinLimit(decode, pending, chunks)
            ==> FeedAll(decode, pending, chunks) == Drain(decode, pending + Join(chunks))
    decreases |chunks|
  {
    if chunks == [] {
      assert pending + [] == pending;
    } else {
      var joined, later := pending + chunks[0], Join(chunks[1..]);
      assert pending + (chunks[0] + later) == joined + later;
      DrainSplit(decode, joined, later);
      RestUnfinished(decode, joined);
      FeedAllIsDrain(decode, Drain(decode, joined).rest, chunks[1..]);
    }
  }

  // ----- The limit in lengths -----

  function FrameLength(payload: bytes): nat { |EncodeVarint(|payload|)| + |payload| }

  /** Where the last frame ends that ends within the first `n` bytes. */
  function LastBoundary(payloads: seq<bytes>, n: nat): (k: nat)
    ensures k <= n
    decreases |payloads|
  {
    if payloads == [] || n < FrameLength(payloads[0]) then 0
    else FrameLength(payloads[0]) + LastBoundary(payloads[1..], n - FrameLength(payloads[0]))
  }

  /** From `start` on, no chunk ends more than the limit after the last frame boundary before it begins. */
  predicate BufferFits(payloads: seq<bytes>, start: nat, chunks: seq<bytes>)
    decreases |chunks|
  {
    chunks == []
    || (start + |chunks[0]| - LastBoundary(payloads, start) <= 8192
        && BufferFits(payloads, start + |chunks[0]|, chunks[1..]))
  }

  /** The beginning of a frame is not one. */
  lemma FrameCutShort(payload: bytes, s: bytes)
    requires |payload| <= MAX_FHS_FRAME_BYTES && s <= EncodeVarint(|payload|) + payload && |s| < FrameLength(payload)
    ensures DecodeLengthPrefixed(s).Incomplete?
  {
    var frame := EncodeVarint(|payload|) + payload;
    FrameRoundTrip(payload, []);
    assert frame + [] == frame;
    assert s + frame[|s|..] == frame;
    if !DecodeLengthPrefixed(s).Incomplete? {
      FrameExtend(s, frame[|s|..]);
    }
  }

  lemma {:induction false} DrainBeginning<E>(decode: bytes -> Option<E>, payloads: seq<bytes>, s: bytes)
    requires forall i :: 0 <= i < |payloads| ==> decode(payloads[i]).Some? && |payloads[i]| <= MAX_FHS_FRAME_BYTES
    requires s <= Frames(payloads)
    ensures Drain(decode, s).ok && |Drain(decode, s).rest| == |s| - LastBoundary(payloads, |s|)
    decreases |payloads|
  {
    if payloads != [] && s != [] {
      var frame, more := EncodeVarint(|payloads[0]|) + payloads[0], Frames(payloads[1..]);
      assert Frames(payloads) == frame + more;
      if |s| < |frame| {
        assert s == Frames(payloads)[..|s|] == frame[..|s|];
        FrameCutShort(payloads[0], s);
      } else {
        var tail := s[|frame|..];
        assert s == frame + tail && tail == more[..|tail|];
        FrameRoundTrip(payloads[0], tail);
        DrainBeginning(decode, payloads[1..], tail);
      }
    }
  }

  lemma BeginningOf(a: bytes, b: bytes, s: bytes)
    requires a + b == s
    ensures a <= s
  {
  }

  /** What the reader holds back is what came since the last frame boundary. */
  lemma {:induction false} WithinIsFits<E>(
    decode: bytes -> Option<E>, payloads: seq<bytes>, before: bytes, chunks: seq<bytes>)
    requires forall i :: 0 <= i < |payloads| ==> decode(payloads[i]).Some? && |payloads[i]| <= MAX_FHS_FRAME_BYTES
    requires before + Join(chunks) == Frames(payloads)
    ensures WithinLimit(decode, Drain(decode, before).rest, chunks) <==> BufferFits(payloads, |before|, chunks)
    decreases |chunks|
  {
    hide Drain, Frames, LastBoundary;
    if chunks != [] {
      var chunk := chunks[0];
      Concat(before, chunk, Join(chunks[1..]));
      BeginningOf(before, Join(chunks), Frames(payloads));
      DrainBeginning(decode, payloads, before);
      BeginningOf(before + chunk, Join(chunks[1..]), Frames(payloads));
      DrainBeginning(decode, payloads, before + chunk);
      DrainSplit(decode, before, chunk);
      WithinIsFits(decode, payloads, before + chunk, chunks[1..]);
    }
  }

  /** However valid frames are cut into chunks, the reader gives back exactly their envelopes, in order and
      with nothing left over, if and only if no chunk ends more than the limit after the last frame boundary
      before it begins. */
  lemma ReassemblyExact<E>(decode: bytes -> Option<E>, payloads: seq<bytes>, chunks: seq<bytes>)
    requires forall i :: 0 <= i < |payloads| ==> decode(payloads[i]).Some? && |payloads[i]| <= MAX_FHS_FRAME_BYTES
    requires Join(chunks) == Frames(payloads)
    ensures FeedAll(decode, [], chunks) == Drained(Envelopes(decode, payloads), [], true)
            <==> BufferFits(payloads, 0, chunks)
    ensures FeedAll(decode, [], chunks).ok <==> BufferFits(payloads, 0, chunks)
  {
    DrainFrames(decode, payloads);
    assert [] + Join(chunks) == Join(chunks);
    FeedAllIsDrain(decode, [], chunks);
    WithinIsFits(decode, payloads, [], chunks);
  }
}
