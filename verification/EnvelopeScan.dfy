/**
 Finding the payload of an envelope in its raw Protocol Buffers bytes, so that a signature is checked
 over the bytes that travelled and not over a re-encoding (Protocol Buffers Encoding, "Message
 Structure").
 */
module EnvelopeScan {
  import opened Wrappers
  import opened Bytes
  import opened Wire
  import AuthorizationDigests
  import Decimal

  const TWO_29: nat := 0x2000_0000

  /** The tags of the payload oneof. */
  const PAYLOAD_TAGS: set<nat> := {
    10, 11, 12, 13, 14, 20, 21, 22, 23, 24, 25, 30, 31, 32, 33, 34, 35, 40, 50, 51, 52, 53, 54, 60,
    61, 62, 63, 64, 65, 66, 67, 69, 70, 80, 90, 91, 92, 93, 94, 95}

  datatype Field =
    | Scalar(tag: nat, value: bits64)
    | Word64(tag: nat, data: bytes)
    | Word32(tag: nat, data: bytes)
    | Delimited(tag: nat, data: bytes)
  {
    /** A field the wire format can carry. */
    predicate Valid() {
      && 1 <= tag < TWO_29
      && (Word64? ==> |data| == 8)
      && (Word32? ==> |data| == 4)
      && (Delimited? ==> |data| < TWO_64)
    }

    predicate IsPayload() { Delimited? && tag in PAYLOAD_TAGS }

    function WireType(): nat {
      match this
      case Scalar(_, _) => 0
      case Word64(_, _) => 1
      case Delimited(_, _) => 2
      case Word32(_, _) => 5
    }

    function Body(): bytes {
      match this
      case Scalar(_, v) => EncodeVarint(v)
      case Word64(_, d) => d
      case Word32(_, d) => d
      case Delimited(_, d) => EncodeVarint(|d|) + d
    }

    function Encode(): bytes {
      EncodeVarint(8 * tag + WireType()) + Body()
    }
  }

  function EncodeFields(fields: seq<Field>): bytes {
    if fields == [] then [] else fields[0].Encode() + EncodeFields(fields[1..])
  }

  // ----- Reading one field -----

  /** A varint of at most ten bytes that fits 64 bits. */
  function DecodeVarint64(s: bytes): (r: Option<(bits64, bytes)>)
    ensures r.Some? ==> |r.value.1| < |s|
  {
    match Varint(s, 10)
    case None => None
    case Some((v, n)) => if v < TWO_64 then Some((v, s[n..])) else None
  }

  /** Field tag and wire type. */
  function DecodeKey(s: bytes): (r: Option<(nat, nat, bytes)>)
    ensures r.Some? ==> |r.value.2| < |s|
  {
    match DecodeVarint64(s)
    case None => None
    case Some((key, rest)) =>
      if key >= TWO_32 || key % 8 > 5 || key / 8 == 0 then None else Some((key / 8, key % 8, rest))
  }

  function Skip(s: bytes, n: nat): Option<bytes> {
    if n > |s| then None else Some(s[n..])
  }

  /** One field off the front; groups are not supported. */
  function DecodeField(s: bytes): (r: Option<(Field, bytes)>)
    ensures r.Some? ==> |r.value.1| < |s|
  {
    match DecodeKey(s)
    case None => None
    case Some((tag, wireType, rest)) =>
      if wireType == 0 then
        (match DecodeVarint64(rest) case None => None case Some((v, rest2)) => Some((Scalar(tag, v), rest2)))
      else if wireType == 1 then
        if |rest| < 8 then None else Some((Word64(tag, rest[..8]), rest[8..]))
      else if wireType == 5 then
        if |rest| < 4 then None else Some((Word32(tag, rest[..4]), rest[4..]))
      else if wireType == 2 then
        match DecodeVarint64(rest)
        case None => None
        case Some((n, rest2)) => if n > |rest2| then None else Some((Delimited(tag, rest2[..n]), rest2[n..]))
      else None
  }

  /** The bytes of the first payload field, reading no further than needed; empty if there is none. */
  function RawPayload(s: bytes): Option<bytes>
    decreases |s|
  {
    if s == [] then Some([])
    else
      match DecodeField(s)
      case None => None
      case Some((field, rest)) => if field.IsPayload() then Some(field.data) else RawPayload(rest)
  }

  /** The scan as it runs: one cursor over the envelope. */
  method RawEnvelopePayload(envelope: bytes) returns (r: Option<bytes>)
    ensures r == RawPayload(envelope)
  {
    var buf := envelope;
    while buf != []
      invariant RawPayload(buf) == RawPayload(envelope)
      decreases |buf|
    {
      var key := DecodeKey(buf);
      if key.None? {
        return None;
      }
      var (tag, wireType, rest) := key.value;
      if wireType == 0 {
        var v := DecodeVarint64(rest);
        if v.None? {
          return None;
        }
        buf := v.value.1;
      } else if wireType == 1 || wireType == 5 {
        var skipped := Skip(rest, if wireType == 1 then 8 else 4);
        if skipped.None? {
          return None;
        }
        buf := skipped.value;
      } else if wireType == 2 {
        var len := DecodeVarint64(rest);
        if len.None? || len.value.0 > |len.value.1| {
          return None;
        }
        if tag in PAYLOAD_TAGS {
          return Some(len.value.1[..len.value.0]);
        }
        buf := len.value.1[len.value.0..];
      } else {
        return None;
      }
    }
    return Some([]);
  }

  // ----- The scan finds what was written -----

  lemma Varint64RoundTrip(v: nat, rest: bytes)
    requires v < TWO_64
    ensures DecodeVarint64(EncodeVarint(v) + rest) == Some((v, rest))
  {
    EightBytes();
    assert Pow128(10) == 128 * (128 * Pow128(8));
    VarintSizeBound(v, 10);
    VarintRoundTrip(v, 10, rest);
    assert (EncodeVarint(v) + rest)[|EncodeVarint(v)|..] == rest;
  }

  lemma KeyRoundTrip(tag: nat, wireType: nat, rest: bytes)
    requires 1 <= tag < TWO_29 && wireType <= 5
    ensures DecodeKey(EncodeVarint(8 * tag + wireType) + rest) == Some((tag, wireType, rest))
  {
    Varint64RoundTrip(8 * tag + wireType, rest);
    assert (8 * tag + wireType) / 8 == tag && (8 * tag + wireType) % 8 == wireType;
  }

  lemma FieldRoundTrip(f: Field, rest: bytes)
    requires f.Valid()
    ensures DecodeField(f.Encode() + rest) == Some((f, rest))
  {
    var key := EncodeVarint(8 * f.tag + f.WireType());
    Concat(key, f.Body(), rest);
    KeyRoundTrip(f.tag, f.WireType(), f.Body() + rest);
    match f
    case Scalar(_, v) => Varint64RoundTrip(v, rest);
    case Word64(_, d) => assert (d + rest)[..8] == d && (d + rest)[8..] == rest;
    case Word32(_, d) => assert (d + rest)[..4] == d && (d + rest)[4..] == rest;
    case Delimited(_, d) =>
      Concat(EncodeVarint(|d|), d, rest);
      Varint64RoundTrip(|d|, d + rest);
      assert (d + rest)[..|d|] == d && (d + rest)[|d|..] == rest;
  }

  /** The first payload among the fields, if any. */
  function FirstPayload(fields: seq<Field>): Option<bytes> {
    if fields == [] then None
    else if fields[0].IsPayload() then Some(fields[0].data)
    else FirstPayload(fields[1..])
  }

  /** What the scan makes of the fields: the first payload, or nothing. */
  function Scanned(fields: seq<Field>): bytes {
    if FirstPayload(fields).Some? then FirstPayload(fields).value else []
  }

  /** Whatever valid fields an envelope is made of, in any order, the scan returns the bytes of the first
      payload field; what follows it is not looked at. Without one the rest is scanned on. */
  lemma {:induction false} ScanFindsPayload(fields: seq<Field>, rest: bytes)
    requires forall i :: 0 <= i < |fields| ==> fields[i].Valid()
    ensures RawPayload(EncodeFields(fields) + rest)
            == if FirstPayload(fields).Some? then FirstPayload(fields) else RawPayload(rest)
  {
    if fields == [] {
      assert [] + rest == rest;
    } else {
      var tail := EncodeFields(fields[1..]) + rest;
      Concat(fields[0].Encode(), EncodeFields(fields[1..]), rest);
      FieldRoundTrip(fields[0], tail);
      ScanFindsPayload(fields[1..], rest);
    }
  }

  function Payloads(fields: seq<Field>): seq<bytes> {
    if fields == [] then []
    else (if fields[0].IsPayload() then [fields[0].data] else []) + Payloads(fields[1..])
  }

  lemma {:induction false} FirstOfPayloads(fields: seq<Field>)
    ensures FirstPayload(fields) == if Payloads(fields) == [] then None else Some(Payloads(fields)[0])
  {
    if fields != [] && !fields[0].IsPayload() {
      FirstOfPayloads(fields[1..]);
    }
  }

  /** A group has no place in an envelope: the scan refuses it wherever it comes before the payload. */
  lemma GroupsRefused(fields: seq<Field>, tag: nat, wireType: nat, rest: bytes)
    requires forall i :: 0 <= i < |fields| ==> fields[i].Valid() && !fields[i].IsPayload()
    requires 1 <= tag < TWO_29 && (wireType == 3 || wireType == 4)
    ensures RawPayload(EncodeFields(fields) + (EncodeVarint(8 * tag + wireType) + rest)) == None
  {
    NoPayload(fields);
    ScanFindsPayload(fields, EncodeVarint(8 * tag + wireType) + rest);
    KeyRoundTrip(tag, wireType, rest);
  }

  lemma {:induction false} NoPayload(fields: seq<Field>)
    requires forall i :: 0 <= i < |fields| ==> !fields[i].IsPayload()
    ensures FirstPayload(fields) == None
  {
    if fields != [] {
      NoPayload(fields[1..]);
    }
  }

  // ----- Envelopes, sealed and verified -----

  /** Texts are their UTF-8 bytes; the payload is the encoding of whichever message its tag says. */
  datatype Envelope = Envelope(
    messageId: bytes, source: bytes, dest: bytes, timestamp: bits64, version: bytes, signature: bytes,
    payloadTag: nat, payload: bytes)

  function EmptyEnvelope(): Envelope { Envelope([], [], [], 0, [], [], 0, []) }

  /** What decoding knows besides the wire format: which bytes are UTF-8, and which are the encoding of
      the message a payload tag stands for. */
  datatype Schema = Schema(utf8: bytes -> bool, message: (nat, bytes) -> bool)

  predicate Readable(schema: Schema, f: Field) {
    f.Delimited? ==>
      (f.tag in {1, 2, 3, 5} ==> schema.utf8(f.data)) && (f.tag in PAYLOAD_TAGS ==> schema.message(f.tag, f.data))
  }

  predicate AllReadable(schema: Schema, fields: seq<Field>) {
    forall i :: 0 <= i < |fields| ==> Readable(schema, fields[i])
  }

  /** Decoding merges fields in order: a later value replaces an earlier one, except that a payload with
      the tag of the one before adds to it; unknown tags are ignored. A known tag with another wire type
      is an error. */
  function Merge(e: Envelope, f: Field): Option<Envelope> {
    if f.tag == 4 then (if f.Scalar? then Some(e.(timestamp := f.value)) else None)
    else if f.tag in {1, 2, 3, 5, 6} || f.tag in PAYLOAD_TAGS then
      if !f.Delimited? then None
      else if f.tag == 1 then Some(e.(messageId := f.data))
      else if f.tag == 2 then Some(e.(source := f.data))
      else if f.tag == 3 then Some(e.(dest := f.data))
      else if f.tag == 5 then Some(e.(version := f.data))
      else if f.tag == 6 then Some(e.(signature := f.data))
      else Some(e.(payloadTag := f.tag, payload := if f.tag == e.payloadTag then e.payload + f.data else f.data))
    else Some(e)
  }

  function MergeAll(e: Envelope, fields: seq<Field>): Option<Envelope>
    decreases |fields|
  {
    if fields == [] then Some(e)
    else
      match Merge(e, fields[0])
      case None => None
      case Some(e2) => MergeAll(e2, fields[1..])
  }

  const RECURSION_LIMIT: nat := 100

  /** What follows a group whose start was read: fields and groups up to the end of the same tag. */
  function SkipGroup(s: bytes, tag: nat, limit: nat): (r: Option<bytes>)
    ensures r.Some? ==> |r.value| < |s|
    decreases |s|
  {
    match DecodeKey(s)
    case None => None
    case Some((inner, wireType, rest)) =>
      if wireType == 4 then (if inner == tag then Some(rest) else None)
      else if limit == 0 then None
      else
        match (if wireType == 3 then SkipGroup(rest, inner, limit - 1) else SkipField(s))
        case None => None
        case Some(after) => SkipGroup(after, tag, limit)
  }

  function SkipField(s: bytes): (r: Option<bytes>)
    ensures r.Some? ==> |r.value| < |s|
  {
    match DecodeField(s)
    case None => None
    case Some((_, rest)) => Some(rest)
  }

  /** The fields of an envelope; unlike the scan, decoding skips groups, which only unknown tags may be. */
  function DecodeFields(s: bytes): Option<seq<Field>>
    decreases |s|
  {
    if s == [] then Some([])
    else
      match DecodeKey(s)
      case None => None
      case Some((tag, wireType, inside)) =>
        if wireType == 3 then
          if Slot(tag) != 0 then None
          else
            match SkipGroup(inside, tag, RECURSION_LIMIT - 1)
            case None => None
            case Some(rest) => DecodeFields(rest)
        else
          match DecodeField(s)
          case None => None
          case Some((f, rest)) => (match DecodeFields(rest) case None => None case Some(fs) => Some([f] + fs))
  }

  function DecodeEnvelope(schema: Schema, s: bytes): Option<Envelope> {
    match DecodeFields(s)
    case None => None
    case Some(fields) => if AllReadable(schema, fields) then MergeAll(EmptyEnvelope(), fields) else None
  }

  // ----- Signatures -----

  function HexDigit(n: nat): byte
    requires n < 16
  {
    if n < 10 then 48 + n else 87 + n
  }

  function Hex(b: bytes): bytes {
    if b == [] then [] else [HexDigit(b[0] / 16), HexDigit(b[0] % 16)] + Hex(b[1..])
  }

  const COLON: bytes := [58]

  /** The text that is signed: four fields of the envelope and the payload's bytes, joined by colons. */
  function SignatureText(messageId: bytes, source: bytes, dest: bytes, timestamp: bits64, payload: bytes): bytes {
    messageId + COLON + source + COLON + dest + COLON
    + AuthorizationDigests.Ascii(Decimal.OfInt(FromBits(timestamp))) + COLON + Hex(payload)
  }

  /** `valid(did, text, signature)` */
  type Check = (bytes, bytes, bytes) -> bool

  datatype Verified = Malformed | Unsigned | Genuine(envelope: Envelope)

  /** The envelope carries a valid signature of its source over these payload bytes. */
  predicate SignedOver(valid: Check, e: Envelope, payload: bytes) {
    e.signature != [] && e.source != []
    && valid(e.source, SignatureText(e.messageId, e.source, e.dest, e.timestamp, payload), e.signature)
  }

  /** Decode, then check the signature over the raw payload. */
  function VerifyEnvelopeBytes(schema: Schema, valid: Check, s: bytes): Verified {
    match DecodeEnvelope(schema, s)
    case None => Malformed
    case Some(e) =>
      if e.signature == [] || e.source == [] then Unsigned
      else
        match RawPayload(s)
        case None => Malformed
        case Some(payload) => if SignedOver(valid, e, payload) then Genuine(e) else Unsigned
  }

  lemma {:induction false} FieldsRoundTrip(fields: seq<Field>)
    requires forall i :: 0 <= i < |fields| ==> fields[i].Valid()
    ensures DecodeFields(EncodeFields(fields)) == Some(fields)
  {
    if fields != [] {
      var f, tail := fields[0], EncodeFields(fields[1..]);
      FieldRoundTrip(f, tail);
      KeyOfField(f, tail);
      FieldsRoundTrip(fields[1..]);
      assert [f] + fields[1..] == fields;
    }
  }

  lemma KeyOfField(f: Field, rest: bytes)
    requires f.Valid()
    ensures DecodeKey(f.Encode() + rest) == Some((f.tag, f.WireType(), f.Body() + rest))
  {
    Concat(EncodeVarint(8 * f.tag + f.WireType()), f.Body(), rest);
    KeyRoundTrip(f.tag, f.WireType(), f.Body() + rest);
  }

  /** Only payload fields change the payload. */
  lemma MergedOne(e: Envelope, f: Field)
    requires Merge(e, f).Some?
    ensures !f.IsPayload() ==> Merge(e, f).value.payload == e.payload && Merge(e, f).value.payloadTag == e.payloadTag
    ensures f.IsPayload() ==>
              Merge(e, f).value
              == e.(payloadTag := f.tag, payload := if f.tag == e.payloadTag then e.payload + f.data else f.data)
  {
    assert forall t :: t in {1, 2, 3, 4, 5, 6} ==> t !in PAYLOAD_TAGS;
    hide PAYLOAD_TAGS;
  }

  lemma {:induction false} MergedNoPayload(e: Envelope, fields: seq<Field>)
    requires MergeAll(e, fields).Some? && Payloads(fields) == []
    ensures MergeAll(e, fields).value.payload == e.payload
    decreases |fields|
  {
    hide Merge;
    if fields != [] {
      MergedOne(e, fields[0]);
      MergedNoPayload(Merge(e, fields[0]).value, fields[1..]);
    }
  }

  /** With at most one payload field, the payload decoded is the one the scan finds. */
  lemma {:induction false} MergedPayload(e: Envelope, fields: seq<Field>)
    requires MergeAll(e, fields).Some? && |Payloads(fields)| <= 1 && e.payload == []
    ensures MergeAll(e, fields).value.payload == Scanned(fields)
    decreases |fields|
  {
    hide Merge;
    if fields != [] {
      var e2 := Merge(e, fields[0]).value;
      MergedOne(e, fields[0]);
      if fields[0].IsPayload() {
        assert |Payloads(fields[1..])| == 0;
        assert [] + fields[0].data == fields[0].data;
        MergedNoPayload(e2, fields[1..]);
      } else {
        MergedPayload(e2, fields[1..]);
      }
    }
  }

  /** The fields of `e` are written in `fields`, in some order, perhaps among unknown ones. */
  ghost predicate Writes(fields: seq<Field>, e: Envelope) {
    && (forall i :: 0 <= i < |fields| ==> fields[i].Valid())
    && MergeAll(EmptyEnvelope(), fields) == Some(e)
  }

  /** Whatever fields are written, in whatever order, they verify as an envelope exactly when they merge to
      it, their texts are UTF-8, their payloads are encodings of their messages, and its signature is valid
      for the payload written first. */
  lemma VerifiesExactly(schema: Schema, valid: Check, fields: seq<Field>, e: Envelope)
    requires forall i :: 0 <= i < |fields| ==> fields[i].Valid()
    ensures VerifyEnvelopeBytes(schema, valid, EncodeFields(fields)) == Genuine(e)
            <==> AllReadable(schema, fields) && Writes(fields, e) && SignedOver(valid, e, Scanned(fields))
    ensures VerifyEnvelopeBytes(schema, valid, EncodeFields(fields)) == Malformed
            <==> !AllReadable(schema, fields) || MergeAll(EmptyEnvelope(), fields).None?
  {
    hide SignatureText, MergeAll, EncodeFields;
    FieldsRoundTrip(fields);
    ScanFindsPayload(fields, []);
    assert EncodeFields(fields) + [] == EncodeFields(fields);
  }

  // ----- Any order of fields -----

  /** The part of the envelope a tag belongs to; zero for unknown tags. */
  function Slot(tag: nat): nat {
    if tag in PAYLOAD_TAGS then 7 else if 1 <= tag <= 6 then tag else 0
  }

  predicate Apart(f: Field, g: Field) { Slot(f.tag) == 0 || Slot(f.tag) != Slot(g.tag) }

  ghost predicate DistinctSlots(fields: seq<Field>) {
    forall i, j :: 0 <= i < j < |fields| ==> Apart(fields[i], fields[j])
  }

  function Then(r: Option<Envelope>, f: Field): Option<Envelope> {
    match r
    case None => None
    case Some(e) => Merge(e, f)
  }

  lemma MergeCommutes(e: Envelope, f: Field, g: Field)
    requires Apart(f, g)
    ensures Then(Merge(e, f), g) == Then(Merge(e, g), f)
  {
  }

  function MergeFrom(r: Option<Envelope>, fields: seq<Field>): Option<Envelope> {
    match r
    case None => None
    case Some(e) => MergeAll(e, fields)
  }

  lemma MergeTwo(e: Envelope, f: Field, g: Field, rest: seq<Field>)
    ensures MergeAll(e, [f] + ([g] + rest)) == MergeFrom(Then(Merge(e, f), g), rest)
  {
    assert ([f] + ([g] + rest))[1..] == [g] + rest && ([g] + rest)[1..] == rest;
  }

  lemma {:induction false} MoveToFront(e: Envelope, a: seq<Field>, f: Field, b: seq<Field>)
    requires forall i :: 0 <= i < |a| ==> Apart(f, a[i])
    ensures MergeAll(e, a + ([f] + b)) == MergeAll(e, [f] + (a + b))
    decreases |a|
  {
    if a == [] {
      assert a + ([f] + b) == [f] + (a + b);
    } else {
      var g, tail := a[0], a[1..];
      assert a + ([f] + b) == [g] + (tail + ([f] + b)) && a + b == [g] + (tail + b);
      assert ([g] + (tail + ([f] + b)))[1..] == tail + ([f] + b);
      assert ([g] + ([f] + (tail + b)))[1..] == [f] + (tail + b);
      if Merge(e, g).Some? {
        MoveToFront(Merge(e, g).value, tail, f, b);
      }
      assert MergeAll(e, a + ([f] + b)) == MergeAll(e, [g] + ([f] + (tail + b)));
      MergeTwo(e, g, f, tail + b);
      MergeTwo(e, f, g, tail + b);
      MergeCommutes(e, f, g);
    }
  }

  lemma InsertedOnce<T>(a: seq<T>, f: T, b: seq<T>)
    ensures multiset(a + ([f] + b)) == multiset{f} + multiset(a + b)
  {
    assert multiset(a + ([f] + b)) == multiset(a) + (multiset{f} + multiset(b));
  }

  lemma SameElements<T>(s: seq<T>, t: seq<T>)
    requires multiset(s) == multiset(t)
    ensures forall k :: 0 <= k < |s| ==> s[k] in t
  {
    forall k | 0 <= k < |s| ensures s[k] in t {
      assert s[k] in multiset(t);
    }
  }

  /** Where the first element went in another order of the same list. */
  lemma SplitAround<T>(s: seq<T>, other: seq<T>) returns (a: seq<T>, b: seq<T>)
    requires s != [] && multiset(s) == multiset(other)
    ensures other == a + ([s[0]] + b)
    ensures multiset(a + b) == multiset(s[1..])
    ensures forall k :: 0 <= k < |a + b| ==> (a + b)[k] in s[1..]
  {
    SameElements(s, other);
    var i :| 0 <= i < |other| && other[i] == s[0];
    RemovedAt(other, i);
    a, b := other[..i], other[i + 1..];
    WithoutFirst(s);
    SameElements(a + b, s[1..]);
  }

  lemma RemovedAt<T>(t: seq<T>, i: nat)
    requires i < |t|
    ensures t == t[..i] + ([t[i]] + t[i + 1..])
    ensures multiset(t[..i] + t[i + 1..]) == multiset(t) - multiset{t[i]}
  {
    InsertedOnce(t[..i], t[i], t[i + 1..]);
  }

  lemma WithoutFirst<T>(s: seq<T>)
    requires s != []
    ensures multiset(s[1..]) == multiset(s) - multiset{s[0]}
  {
    assert s == [s[0]] + s[1..];
    assert multiset(s) == multiset{s[0]} + multiset(s[1..]);
  }

  lemma ApartFromRest(fields: seq<Field>, some: seq<Field>)
    requires fields != [] && DistinctSlots(fields)
    requires forall k :: 0 <= k < |some| ==> some[k] in fields[1..]
    ensures forall k :: 0 <= k < |some| ==> Apart(fields[0], some[k]) && Apart(some[k], fields[0])
  {
    forall k | 0 <= k < |some| ensures Apart(fields[0], some[k]) {
      var j :| 0 <= j < |fields[1..]| && fields[1..][j] == some[k];
      assert fields[j + 1] == some[k];
    }
  }

  lemma {:induction false} MergeAnyOrder(e: Envelope, fields: seq<Field>, other: seq<Field>)
    requires DistinctSlots(fields) && multiset(fields) == multiset(other)
    ensures MergeAll(e, fields) == MergeAll(e, other)
    decreases |fields|
  {
    if fields == [] {
      assert |multiset(other)| == |other|;
    } else {
      var f := fields[0];
      var a, b := SplitAround(fields, other);
      ApartFromRest(fields, a + b);
      assert forall k :: 0 <= k < |a| ==> a[k] == (a + b)[k];
      MoveToFront(e, a, f, b);
      assert ([f] + (a + b))[1..] == a + b;
      if Merge(e, f).Some? {
        MergeAnyOrder(Merge(e, f).value, fields[1..], a + b);
      }
    }
  }

  lemma {:induction false} DistinctInAnyOrder(fields: seq<Field>, other: seq<Field>)
    requires DistinctSlots(fields) && multiset(fields) == multiset(other)
    ensures DistinctSlots(other)
    decreases |fields|
  {
    if fields == [] {
      assert |multiset(other)| == |other|;
    } else {
      var a, b := SplitAround(fields, other);
      ApartFromRest(fields, a + b);
      DistinctInAnyOrder(fields[1..], a + b);
      DistinctInsert(a, fields[0], b);
    }
  }

  lemma DistinctInsert(a: seq<Field>, f: Field, b: seq<Field>)
    requires DistinctSlots(a + b)
    requires forall k :: 0 <= k < |a + b| ==> Apart(f, (a + b)[k]) && Apart((a + b)[k], f)
    ensures DistinctSlots(a + ([f] + b))
  {
    var all, less := a + ([f] + b), a + b;
    forall i, j | 0 <= i < j < |all| ensures Apart(all[i], all[j]) {
      assert i < |a| ==> all[i] == less[i];
      assert i > |a| ==> all[i] == less[i - 1];
      assert j < |a| ==> all[j] == less[j];
      assert j > |a| ==> all[j] == less[j - 1];
    }
  }

  lemma {:induction false} PayloadsDistinct(fields: seq<Field>)
    requires DistinctSlots(fields)
    ensures |Payloads(fields)| <= 1
    ensures fields != [] && fields[0].IsPayload() ==> Payloads(fields[1..]) == []
  {
    if fields != [] {
      PayloadsDistinct(fields[1..]);
      if fields[0].IsPayload() {
        NoPayloadBytes(fields[1..]);
      }
    }
  }

  lemma {:induction false} NoPayloadBytes(fields: seq<Field>)
    requires forall i :: 0 <= i < |fields| ==> !fields[i].IsPayload()
    ensures Payloads(fields) == []
  {
    if fields != [] {
      NoPayloadBytes(fields[1..]);
    }
  }

  lemma ValidInAnyOrder(fields: seq<Field>, other: seq<Field>)
    requires multiset(fields) == multiset(other) && forall i :: 0 <= i < |fields| ==> fields[i].Valid()
    ensures forall i :: 0 <= i < |other| ==> other[i].Valid()
  {
    forall i | 0 <= i < |other| ensures other[i].Valid() {
      assert other[i] in multiset(fields);
    }
  }

  lemma ReadableInAnyOrder(schema: Schema, fields: seq<Field>, other: seq<Field>)
    requires multiset(fields) == multiset(other)
    ensures AllReadable(schema, fields) <==> AllReadable(schema, other)
  {
    hide Readable;
    SameElements(fields, other);
    SameElements(other, fields);
  }

  /** Fields with distinct tags decode to the same envelope, or to none, in any order. */
  lemma DecodesInAnyOrder(schema: Schema, fields: seq<Field>, other: seq<Field>)
    requires forall i :: 0 <= i < |fields| ==> fields[i].Valid()
    requires DistinctSlots(fields) && multiset(fields) == multiset(other)
    ensures DecodeEnvelope(schema, EncodeFields(other)) == DecodeEnvelope(schema, EncodeFields(fields))
  {
    hide AllReadable, MergeAll, EncodeFields;
    ValidInAnyOrder(fields, other);
    MergeAnyOrder(EmptyEnvelope(), fields, other);
    ReadableInAnyOrder(schema, fields, other);
    FieldsRoundTrip(fields);
    FieldsRoundTrip(other);
  }

  /** Each part of the envelope written once, any rearrangement of its fields verifies, as the same
      envelope, exactly when it can be read and its signature is valid for its payload bytes. */
  lemma VerifiesInAnyOrder(schema: Schema, valid: Check, fields: seq<Field>, other: seq<Field>, e: Envelope)
    requires Writes(fields, e) && DistinctSlots(fields) && multiset(fields) == multiset(other)
    ensures VerifyEnvelopeBytes(schema, valid, EncodeFields(other)) == Genuine(e)
            <==> AllReadable(schema, fields) && SignedOver(valid, e, e.payload)
  {
    hide AllReadable, MergeAll, EncodeFields, SignedOver, VerifyEnvelopeBytes, DistinctSlots;
    ValidInAnyOrder(fields, other);
    MergeAnyOrder(EmptyEnvelope(), fields, other);
    DistinctInAnyOrder(fields, other);
    PayloadsDistinct(other);
    MergedPayload(EmptyEnvelope(), other);
    ReadableInAnyOrder(schema, fields, other);
    VerifiesExactly(schema, valid, other, e);
  }

  // ----- Sealing -----

  /** An envelope signed by `did`: the signature is over the other fields, before it is put in. */
  function Seal(sign: bytes -> bytes, did: bytes, dest: bytes, messageId: bytes, timestamp: bits64, version: bytes,
                tag: nat, payload: bytes): Envelope
  {
    Envelope(messageId, did, dest, timestamp, version,
             sign(SignatureText(messageId, did, dest, timestamp, payload)), tag, payload)
  }

  /** How an envelope is written: in order of tags, leaving out empty texts and zero. */
  function FieldsOf(e: Envelope): seq<Field> {
    Text(1, e.messageId) + Text(2, e.source) + Text(3, e.dest)
    + Time(e.timestamp) + Text(5, e.version) + Text(6, e.signature) + [Delimited(e.payloadTag, e.payload)]
  }

  function Text(tag: nat, data: bytes): seq<Field> { if data == [] then [] else [Delimited(tag, data)] }

  function Time(timestamp: bits64): seq<Field> { if timestamp == 0 then [] else [Scalar(4, timestamp)] }

  /** Lengths fit 64 bits. */
  ghost predicate Fits(e: Envelope) {
    |e.messageId| < TWO_64 && |e.source| < TWO_64 && |e.dest| < TWO_64 && |e.version| < TWO_64
    && |e.signature| < TWO_64 && |e.payload| < TWO_64 && e.payloadTag in PAYLOAD_TAGS
  }

  ghost predicate EnvelopeReadable(schema: Schema, e: Envelope) {
    schema.utf8(e.messageId) && schema.utf8(e.source) && schema.utf8(e.dest) && schema.utf8(e.version)
    && schema.message(e.payloadTag, e.payload)
  }

  lemma {:induction false} MergeAppend(e: Envelope, a: seq<Field>, b: seq<Field>)
    ensures MergeAll(e, a + b) == MergeFrom(MergeAll(e, a), b)
    decreases |a|
  {
    if a == [] {
      assert a + b == b;
    } else {
      assert (a + b)[0] == a[0] && (a + b)[1..] == a[1..] + b;
      if Merge(e, a[0]).Some? {
        MergeAppend(Merge(e, a[0]).value, a[1..], b);
      }
    }
  }

  lemma MergeText(e: Envelope, tag: nat, data: bytes)
    ensures data != [] ==> MergeAll(e, Text(tag, data)) == Merge(e, Delimited(tag, data))
    ensures data == [] ==> MergeAll(e, Text(tag, data)) == Some(e)
  {
    MergeOne(e, Delimited(tag, data));
  }

  lemma MergeOne(e: Envelope, f: Field)
    ensures MergeAll(e, [f]) == Merge(e, f)
  {
    assert [f][1..] == [];
    if Merge(e, f).Some? {
      assert MergeAll(Merge(e, f).value, []) == Merge(e, f);
    }
  }

  lemma MergeTexts(e: Envelope, a: bytes, b: bytes, c: bytes)
    ensures MergeAll(e, Text(1, a) + Text(2, b) + Text(3, c))
            == Some(e.(messageId := if a == [] then e.messageId else a, source := if b == [] then e.source else b,
                       dest := if c == [] then e.dest else c))
  {
    hide MergeAll, Text, PAYLOAD_TAGS;
    var e1 := if a == [] then e else e.(messageId := a);
    var e2 := if b == [] then e1 else e1.(source := b);
    MergeText(e, 1, a);
    MergeText(e1, 2, b);
    MergeText(e2, 3, c);
    MergeAppend(e, Text(1, a), Text(2, b));
    MergeAppend(e, Text(1, a) + Text(2, b), Text(3, c));
  }

  lemma MergeRest(e: Envelope, timestamp: bits64, version: bytes, signature: bytes)
    requires e.timestamp == 0
    ensures MergeAll(e, Time(timestamp) + Text(5, version) + Text(6, signature))
            == Some(e.(timestamp := timestamp, version := if version == [] then e.version else version,
                       signature := if signature == [] then e.signature else signature))
  {
    hide MergeAll, Text, Time, PAYLOAD_TAGS;
    var e1 := e.(timestamp := timestamp);
    var e2 := if version == [] then e1 else e1.(version := version);
    MergeTime(e, timestamp);
    MergeText(e1, 5, version);
    MergeText(e2, 6, signature);
    MergeAppend(e, Time(timestamp), Text(5, version));
    MergeAppend(e, Time(timestamp) + Text(5, version), Text(6, signature));
  }

  lemma FieldsInParts(e: Envelope)
    ensures FieldsOf(e)
            == (Text(1, e.messageId) + Text(2, e.source) + Text(3, e.dest))
               + (Time(e.timestamp) + Text(5, e.version) + Text(6, e.signature)) + [Delimited(e.payloadTag, e.payload)]
  {
    hide Text, Time;
  }

  /** Merging an envelope's fields gives the envelope back. */
  lemma FieldsMerge(e: Envelope)
    requires e.payloadTag in PAYLOAD_TAGS
    ensures MergeAll(EmptyEnvelope(), FieldsOf(e)) == Some(e)
  {
    var payload := Delimited(e.payloadTag, e.payload);
    assert payload.IsPayload() && 0 !in PAYLOAD_TAGS;
    hide MergeAll, Merge, Text, Time, FieldsOf, PAYLOAD_TAGS;
    var e0 := EmptyEnvelope();
    var texts := Text(1, e.messageId) + Text(2, e.source) + Text(3, e.dest);
    var rest := Time(e.timestamp) + Text(5, e.version) + Text(6, e.signature);
    FieldsInParts(e);
    MergeTexts(e0, e.messageId, e.source, e.dest);
    var e1 := MergeAll(e0, texts).value;
    MergeRest(e1, e.timestamp, e.version, e.signature);
    var e2 := MergeAll(e1, rest).value;
    MergePayload(e2, payload);
    MergeAppend(e0, texts, rest);
    MergeAppend(e0, texts + rest, [payload]);
  }

  lemma MergePayload(e: Envelope, f: Field)
    requires f.IsPayload() && e.payloadTag != f.tag
    ensures MergeAll(e, [f]) == Some(e.(payloadTag := f.tag, payload := f.data))
  {
    assert forall t :: t in {1, 2, 3, 4, 5, 6} ==> t !in PAYLOAD_TAGS;
    hide PAYLOAD_TAGS;
    MergeOne(e, f);
  }

  lemma MergeTime(e: Envelope, timestamp: bits64)
    requires e.timestamp == 0
    ensures MergeAll(e, Time(timestamp)) == Some(e.(timestamp := timestamp))
  {
    MergeOne(e, Scalar(4, timestamp));
  }

  /** The slots of the fields go up, from `low` to `high` at most, and the fields can be carried and read. */
  ghost predicate Rising(schema: Schema, fields: seq<Field>, low: nat, high: nat) {
    (forall i, j :: 0 <= i < j < |fields| ==> Slot(fields[i].tag) < Slot(fields[j].tag))
    && forall i :: 0 <= i < |fields| ==>
         low <= Slot(fields[i].tag) <= high && fields[i].Valid() && Readable(schema, fields[i])
  }

  lemma RisingJoin(schema: Schema, a: seq<Field>, b: seq<Field>, high: nat)
    requires high > 0 && Rising(schema, a, 1, high - 1) && Rising(schema, b, high, high)
    ensures Rising(schema, a + b, 1, high)
  {
    hide Slot, Readable;
  }

  lemma TextRises(schema: Schema, tag: nat, data: bytes)
    requires tag in {1, 2, 3, 5, 6} && |data| < TWO_64 && (tag != 6 ==> schema.utf8(data))
    ensures Rising(schema, Text(tag, data), tag, tag)
  {
    assert tag !in PAYLOAD_TAGS;
    hide PAYLOAD_TAGS;
  }

  lemma TimeRises(schema: Schema, timestamp: bits64)
    ensures Rising(schema, Time(timestamp), 4, 4)
  {
    assert 4 !in PAYLOAD_TAGS;
    hide PAYLOAD_TAGS;
  }

  lemma FieldsRise(schema: Schema, e: Envelope)
    requires Fits(e) && EnvelopeReadable(schema, e)
    ensures Rising(schema, FieldsOf(e), 1, 7)
  {
    var t1, t2, t3, t4 := Text(1, e.messageId), Text(2, e.source), Text(3, e.dest), Time(e.timestamp);
    var t5, t6, t7 := Text(5, e.version), Text(6, e.signature), [Delimited(e.payloadTag, e.payload)];
    TextRises(schema, 1, e.messageId);
    TextRises(schema, 2, e.source);
    TextRises(schema, 3, e.dest);
    TimeRises(schema, e.timestamp);
    TextRises(schema, 5, e.version);
    TextRises(schema, 6, e.signature);
    assert Rising(schema, t7, 7, 7);
    hide Rising, Text, Time;
    RisingJoin(schema, t1, t2, 2);
    RisingJoin(schema, t1 + t2, t3, 3);
    RisingJoin(schema, t1 + t2 + t3, t4, 4);
    RisingJoin(schema, t1 + t2 + t3 + t4, t5, 5);
    RisingJoin(schema, t1 + t2 + t3 + t4 + t5, t6, 6);
    RisingJoin(schema, t1 + t2 + t3 + t4 + t5 + t6, t7, 7);
  }

  /** A field the envelope does not know. */
  predicate Unknown(f: Field) { f.Valid() && Slot(f.tag) == 0 }

  lemma {:induction false} UnknownIgnored(e: Envelope, unknown: seq<Field>)
    requires forall i :: 0 <= i < |unknown| ==> Unknown(unknown[i])
    ensures MergeAll(e, unknown) == Some(e)
    decreases |unknown|
  {
    if unknown != [] {
      UnknownIgnored(e, unknown[1..]);
    }
  }

  lemma SealedFields(schema: Schema, e: Envelope, unknown: seq<Field>)
    requires Fits(e) && EnvelopeReadable(schema, e) && forall i :: 0 <= i < |unknown| ==> Unknown(unknown[i])
    ensures DistinctSlots(FieldsOf(e) + unknown) && AllReadable(schema, FieldsOf(e) + unknown)
    ensures Writes(FieldsOf(e) + unknown, e)
  {
    FieldsMerge(e);
    FieldsRise(schema, e);
    UnknownIgnored(e, unknown);
    MergeAppend(EmptyEnvelope(), FieldsOf(e), unknown);
    hide FieldsOf, MergeAll, Fits, EnvelopeReadable;
    var all := FieldsOf(e) + unknown;
    forall i | 0 <= i < |all| ensures all[i].Valid() && Readable(schema, all[i]) {
      assert i >= |FieldsOf(e)| ==> Unknown(all[i]);
    }
    forall i, j | 0 <= i < j < |all| ensures Apart(all[i], all[j]) {
      assert i >= |FieldsOf(e)| ==> Unknown(all[i]);
      assert j >= |FieldsOf(e)| ==> Unknown(all[j]);
    }
    PayloadsDistinct(all);
  }

  /** Sealing and then verifying succeeds: written in any order, among any unknown fields, a sealed
      envelope verifies as itself, when the signer's signatures are valid. */
  lemma SealedVerifies(schema: Schema, valid: Check, sign: bytes -> bytes, did: bytes, dest: bytes, messageId: bytes,
                       timestamp: bits64, version: bytes, tag: nat, payload: bytes, unknown: seq<Field>,
                       fields: seq<Field>)
    requires var text := SignatureText(messageId, did, dest, timestamp, payload);
             did != [] && sign(text) != [] && valid(did, text, sign(text))
    requires var e := Seal(sign, did, dest, messageId, timestamp, version, tag, payload);
             && Fits(e) && EnvelopeReadable(schema, e)
             && multiset(fields) == multiset(FieldsOf(e) + unknown)
    requires forall i :: 0 <= i < |unknown| ==> Unknown(unknown[i])
    ensures VerifyEnvelopeBytes(schema, valid, EncodeFields(fields))
            == Genuine(Seal(sign, did, dest, messageId, timestamp, version, tag, payload))
  {
    hide SignatureText, FieldsOf, Fits, EnvelopeReadable, VerifyEnvelopeBytes, EncodeFields, Writes, DistinctSlots,
        AllReadable;
    var e := Seal(sign, did, dest, messageId, timestamp, version, tag, payload);
    SealedFields(schema, e, unknown);
    VerifiesInAnyOrder(schema, valid, FieldsOf(e) + unknown, fields, e);
  }
}
