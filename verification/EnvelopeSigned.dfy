/**
 What the signature of a verified envelope covers. It is checked over the payload written first, while
 decoding keeps the last one; and it covers neither the payload's tag nor the version.
 */
module EnvelopeSigned {
  import opened Wrappers
  import opened Bytes
  import opened Wire
  import opened EnvelopeScan
  import opened EnvelopeText

  // ----- The payload handed over -----

  /** For any bytes, well formed or not: what the scan returns is the first of the payloads decoded. */
  lemma {:induction false} ScanOfDecoded(s: bytes)
    requires DecodeFields(s).Some? && RawPayload(s).Some?
    ensures RawPayload(s) == Some(Scanned(DecodeFields(s).value))
    decreases |s|
  {
    if s != [] {
      var (f, rest) := DecodeField(s).value;
      var fields := DecodeFields(s).value;
      assert fields == [f] + DecodeFields(rest).value;
      assert fields[1..] == DecodeFields(rest).value;
      if !f.IsPayload() {
        ScanOfDecoded(rest);
      }
    }
  }

  /** The payload handed over is the one that was signed, whoever signed, exactly when the payload decoded
      is the first one written. */
  lemma HandedOverIsSigned(schema: Schema, s: bytes, e: Envelope)
    requires DecodeEnvelope(schema, s) == Some(e) && e.signature != [] && e.source != [] && RawPayload(s).Some?
    ensures (forall valid: Check ::
               VerifyEnvelopeBytes(schema, valid, s) == Genuine(e) ==> SignedOver(valid, e, e.payload))
            <==> e.payload == Scanned(DecodeFields(s).value)
  {
    ScanOfDecoded(s);
    var p := Scanned(DecodeFields(s).value);
    hide DecodeEnvelope, DecodeFields, RawPayload, SignatureText, Scanned;
    TextBindsPayload(e.messageId, e.source, e.dest, e.timestamp, p, e.payload);
    if e.payload != p {
      var text := SignatureText(e.messageId, e.source, e.dest, e.timestamp, p);
      var only: Check := (did, t, signature) => t == text;
      assert VerifyEnvelopeBytes(schema, only, s) == Genuine(e) && !SignedOver(only, e, e.payload);
    }
  }

  /** One payload is enough. */
  lemma OnePayloadIsSigned(schema: Schema, valid: Check, fields: seq<Field>, e: Envelope)
    requires (forall i :: 0 <= i < |fields| ==> fields[i].Valid()) && |Payloads(fields)| <= 1
    ensures VerifyEnvelopeBytes(schema, valid, EncodeFields(fields)) == Genuine(e)
            <==> AllReadable(schema, fields) && Writes(fields, e) && SignedOver(valid, e, e.payload)
  {
    hide SignedOver, VerifyEnvelopeBytes, EncodeFields;
    VerifiesExactly(schema, valid, fields, e);
    if MergeAll(EmptyEnvelope(), fields).Some? {
      MergedPayload(EmptyEnvelope(), fields);
    }
  }

  lemma {:induction false} FirstStays(fields: seq<Field>, more: seq<Field>)
    requires FirstPayload(fields).Some?
    ensures FirstPayload(fields + more) == FirstPayload(fields)
  {
    assert (fields + more)[0] == fields[0] && (fields + more)[1..] == fields[1..] + more;
    if !fields[0].IsPayload() {
      FirstStays(fields[1..], more);
    }
  }

  /** An envelope that verifies still does with a second payload of another tag after it, and then the second
      is handed over. */
  lemma SecondPayloadReplaces(schema: Schema, valid: Check, fields: seq<Field>, e: Envelope, tag: nat, data: bytes)
    requires (forall i :: 0 <= i < |fields| ==> fields[i].Valid()) && FirstPayload(fields).Some?
    requires VerifyEnvelopeBytes(schema, valid, EncodeFields(fields)) == Genuine(e)
    requires tag in PAYLOAD_TAGS && tag != e.payloadTag && |data| < TWO_64 && schema.message(tag, data)
    ensures VerifyEnvelopeBytes(schema, valid, EncodeFields(fields + [Delimited(tag, data)]))
            == Genuine(e.(payloadTag := tag, payload := data))
  {
    var second := Delimited(tag, data);
    PayloadReads(schema, second);
    hide PAYLOAD_TAGS, MergeAll, Merge, EncodeFields, VerifyEnvelopeBytes, SignatureText, FirstPayload, AllReadable;
    VerifiesExactly(schema, valid, fields, e);
    MergeAppend(EmptyEnvelope(), fields, [second]);
    MergePayload(e, second);
    FirstStays(fields, [second]);
    ReadableJoin(schema, fields, [second]);
    VerifiesExactly(schema, valid, fields + [second], e.(payloadTag := tag, payload := data));
  }

  lemma PayloadReads(schema: Schema, f: Field)
    requires f.IsPayload() && |f.data| < TWO_64 && schema.message(f.tag, f.data)
    ensures f.Valid() && AllReadable(schema, [f])
  {
    assert forall t :: t in {1, 2, 3, 5} ==> t !in PAYLOAD_TAGS;
    assert forall t :: t in PAYLOAD_TAGS ==> 1 <= t < TWO_29;
    hide PAYLOAD_TAGS;
  }

  const SIGNED: Envelope := Envelope([], [100], [], 0, [], [1], 12, [7])

  lemma SignedFields()
    ensures Fits(SIGNED) && 33 in PAYLOAD_TAGS
    ensures FieldsOf(SIGNED) == [Delimited(2, [100]), Delimited(6, [1]), Delimited(12, [7])]
    ensures FirstPayload(FieldsOf(SIGNED)).Some? && forall i :: 0 <= i < 3 ==> FieldsOf(SIGNED)[i].Valid()
  {
    var f, g, p := Delimited(2, [100]), Delimited(6, [1]), Delimited(12, [7]);
    assert p.IsPayload() && !f.IsPayload() && !g.IsPayload();
    assert [f, g, p][1..] == [g, p] && [g, p][1..] == [p];
    assert FirstPayload([p]).Some? && FirstPayload([g, p]).Some?;
  }

  /** The signature is over the first payload, and the second is handed over without one. */
  lemma SecondPayloadInstance(valid: Check)
    requires forall did, text, signature ::
               valid(did, text, signature) <==> text == SignatureText([], [100], [], 0, [7])
    ensures var schema, e := Schema(_ => true, (_, _) => true), Envelope([], [100], [], 0, [], [1], 33, [9]);
            && VerifyEnvelopeBytes(schema, valid, EncodeFields(
                 [Delimited(2, [100]), Delimited(6, [1]), Delimited(12, [7]), Delimited(33, [9])])) == Genuine(e)
            && !SignedOver(valid, e, e.payload)
  {
    var schema := Schema(_ => true, (_, _) => true);
    hide PAYLOAD_TAGS, MergeAll, EncodeFields, VerifyEnvelopeBytes, FirstPayload, FieldsOf, SignatureText;
    SignedFields();
    ReadableFields(schema, SIGNED);
    WrittenVerifies(schema, valid, SIGNED);
    SecondPayloadReplaces(schema, valid, FieldsOf(SIGNED), SIGNED, 33, [9]);
    TextBindsPayload([], [100], [], 0, [7], [9]);
    assert FieldsOf(SIGNED) + [Delimited(33, [9])]
        == [Delimited(2, [100]), Delimited(6, [1]), Delimited(12, [7]), Delimited(33, [9])];
  }

  // ----- What is not signed -----

  lemma ReadableJoin(schema: Schema, a: seq<Field>, b: seq<Field>)
    ensures AllReadable(schema, a + b) <==> AllReadable(schema, a) && AllReadable(schema, b)
  {
    hide Readable;
    if AllReadable(schema, a + b) {
      assert forall i :: 0 <= i < |a| ==> a[i] == (a + b)[i];
      assert forall i :: 0 <= i < |b| ==> b[i] == (a + b)[|a| + i];
    }
  }

  predicate TextReadable(schema: Schema, data: bytes) { data == [] || schema.utf8(data) }

  lemma ReadableText(schema: Schema, tag: nat, data: bytes)
    requires tag in {1, 2, 3, 5, 6}
    ensures AllReadable(schema, Text(tag, data)) <==> tag == 6 || TextReadable(schema, data)
  {
    assert tag !in PAYLOAD_TAGS;
    hide PAYLOAD_TAGS;
    assert data != [] ==> Text(tag, data)[0] == Delimited(tag, data);
  }

  /** An envelope's fields can be read exactly when its texts and its payload can. */
  lemma ReadableFields(schema: Schema, e: Envelope)
    requires e.payloadTag in PAYLOAD_TAGS
    ensures AllReadable(schema, FieldsOf(e))
            <==> TextReadable(schema, e.messageId) && TextReadable(schema, e.source) && TextReadable(schema, e.dest)
                 && TextReadable(schema, e.version) && schema.message(e.payloadTag, e.payload)
  {
    var t1, t2, t3, t4 := Text(1, e.messageId), Text(2, e.source), Text(3, e.dest), Time(e.timestamp);
    var t5, t6, t7 := Text(5, e.version), Text(6, e.signature), [Delimited(e.payloadTag, e.payload)];
    ReadableText(schema, 1, e.messageId);
    ReadableText(schema, 2, e.source);
    ReadableText(schema, 3, e.dest);
    ReadableText(schema, 5, e.version);
    ReadableText(schema, 6, e.signature);
    assert AllReadable(schema, t4);
    assert AllReadable(schema, t7) <==> schema.message(e.payloadTag, e.payload) by {
      assert e.payloadTag !in {1, 2, 3, 5} && t7[0] == Delimited(e.payloadTag, e.payload);
    }
    hide AllReadable, Text, Time, TextReadable;
    ReadableJoin(schema, t1, t2);
    ReadableJoin(schema, t1 + t2, t3);
    ReadableJoin(schema, t1 + t2 + t3, t4);
    ReadableJoin(schema, t1 + t2 + t3 + t4, t5);
    ReadableJoin(schema, t1 + t2 + t3 + t4 + t5, t6);
    ReadableJoin(schema, t1 + t2 + t3 + t4 + t5 + t6, t7);
  }

  /** How an envelope is written verifies as itself exactly when it can be read and is signed. */
  lemma WrittenVerifies(schema: Schema, valid: Check, e: Envelope)
    requires Fits(e)
    ensures VerifyEnvelopeBytes(schema, valid, EncodeFields(FieldsOf(e))) == Genuine(e)
            <==> AllReadable(schema, FieldsOf(e)) && SignedOver(valid, e, e.payload)
  {
    var any := Schema(_ => true, (_, _) => true);
    SealedFields(any, e, []);
    assert FieldsOf(e) + [] == FieldsOf(e);
    hide FieldsOf, AllReadable, SignedOver, VerifyEnvelopeBytes, EncodeFields, DistinctSlots, Fits, MergeAll;
    VerifiesInAnyOrder(schema, valid, FieldsOf(e), FieldsOf(e), e);
  }

  /** A signature says nothing of the payload's tag and of the version: with others in their place the signed
      envelope verifies exactly when the payload's bytes are also an encoding of the message of that tag. */
  lemma TagAndVersionAreFree(schema: Schema, valid: Check, e: Envelope, tag: nat, version: bytes)
    requires Fits(e) && SignedOver(valid, e, e.payload) && AllReadable(schema, FieldsOf(e))
    requires tag in PAYLOAD_TAGS && |version| < TWO_64
    ensures var other := e.(payloadTag := tag, version := version);
            VerifyEnvelopeBytes(schema, valid, EncodeFields(FieldsOf(other))) == Genuine(other)
            <==> schema.message(tag, e.payload) && TextReadable(schema, version)
  {
    hide FieldsOf, AllReadable, VerifyEnvelopeBytes, EncodeFields, TextReadable, SignatureText;
    var other := e.(payloadTag := tag, version := version);
    ReadableFields(schema, e);
    ReadableFields(schema, other);
    WrittenVerifies(schema, valid, other);
  }

  // ----- What is signed -----

  function SignedText(e: Envelope): bytes {
    SignatureText(e.messageId, e.source, e.dest, e.timestamp, e.payload)
  }

  /** The two differ in one of the fields that are signed: the message id, the source, the destination, the
      timestamp or the payload. */
  ghost predicate OneChanged(e: Envelope, other: Envelope) {
    e != other
    && (other == e.(messageId := other.messageId) || other == e.(source := other.source)
        || other == e.(dest := other.dest) || other == e.(timestamp := other.timestamp)
        || other == e.(payload := other.payload))
  }

  lemma ChangedText(e: Envelope, other: Envelope)
    requires OneChanged(e, other)
    ensures SignedText(e) != SignedText(other)
  {
    TextBindsMessageId(e.messageId, other.messageId, e.source, e.dest, e.timestamp, e.payload);
    TextBindsSource(e.messageId, e.source, other.source, e.dest, e.timestamp, e.payload);
    TextBindsDest(e.messageId, e.source, e.dest, other.dest, e.timestamp, e.payload);
    TextBindsTimestamp(e.messageId, e.source, e.dest, e.timestamp, other.timestamp, e.payload);
    TextBindsPayload(e.messageId, e.source, e.dest, e.timestamp, e.payload, other.payload);
    hide SignatureText;
  }

  /** A check that accepts nothing but the text of the original accepts the original and no envelope with one
      signed field changed. */
  lemma ChangeIsSeen(schema: Schema, valid: Check, e: Envelope, other: Envelope)
    requires Fits(e) && Fits(other) && AllReadable(schema, FieldsOf(e)) && e.source != [] && e.signature != []
    requires OneChanged(e, other)
    requires forall did, text, signature :: valid(did, text, signature) <==> text == SignedText(e)
    ensures VerifyEnvelopeBytes(schema, valid, EncodeFields(FieldsOf(e))) == Genuine(e)
    ensures VerifyEnvelopeBytes(schema, valid, EncodeFields(FieldsOf(other))) != Genuine(other)
  {
    ChangedText(e, other);
    WrittenVerifies(schema, valid, e);
    WrittenVerifies(schema, valid, other);
    hide FieldsOf, AllReadable, VerifyEnvelopeBytes, EncodeFields, SignatureText, Fits, OneChanged;
  }

  /** Two envelopes with plain message ids and `did:key` sources are signed by one text exactly when they
      differ at most in what is not signed. */
  lemma SignedTogether(e: Envelope, other: Envelope, name: bytes, name2: bytes)
    requires 58 !in e.messageId && 58 !in other.messageId && DidKey(e.source, name) && DidKey(other.source, name2)
    ensures SignedText(e) == SignedText(other)
            <==> e == other.(payloadTag := e.payloadTag, version := e.version, signature := e.signature)
  {
    TextIdentifies(e.messageId, e.source, name, e.dest, e.timestamp, e.payload,
                   other.messageId, other.source, name2, other.dest, other.timestamp, other.payload);
    hide SignatureText;
  }
}
