/**
 The bytes and texts that travel, written out for one value of each kind, as a counterpart of another make
 would have to write them.
 */
module WrittenForms {
  import opened Wrappers
  import opened Bytes
  import CanonicalValue
  import AuthorizationDigests
  import BatchDigest
  import EnvelopeScan
  import CivilDate
  import Decimal
  import Wire

  // ----- Canonical values -----

  lemma LengthForm()
    ensures PushLen(0) == [0, 0, 0, 0] && PushLen(1) == [0, 0, 0, 1] && PushLen(2) == [0, 0, 0, 2]
    ensures PushLen(259) == [0, 0, 1, 3]
  {
    assert BigEndian(1, 0) == [0] && BigEndian(2, 0) == [0, 0] && BigEndian(3, 0) == [0, 0, 0];
    assert BigEndian(3, 1) == [0, 0, 1];
  }

  lemma IntegerForm()
    ensures U64(ToBits(258)) == [0, 0, 0, 0, 0, 0, 1, 2]
  {
    assert BigEndian(4, 0) == [0, 0, 0, 0];
    assert BigEndian(6, 0) == BigEndian(4, 0) + [0, 0];
    assert BigEndian(7, 1) == BigEndian(6, 0) + [1];
  }

  lemma NegativeForm()
    ensures U64(ToBits(-2)) == [255, 255, 255, 255, 255, 255, 255, 254]
  {
    assert BigEndian(2, 0xFFFF) == [255, 255];
    assert BigEndian(4, 0xFFFF_FFFF) == BigEndian(2, 0xFFFF) + [255, 255];
    assert BigEndian(6, 0xFFFF_FFFF_FFFF) == BigEndian(4, 0xFFFF_FFFF) + [255, 255];
    assert BigEndian(7, 0xFF_FFFF_FFFF_FFFF) == BigEndian(6, 0xFFFF_FFFF_FFFF) + [255];
  }

  /** The kinds by their tags; integers and lengths have their most significant byte first. */
  lemma ScalarForms()
    ensures CanonicalValue.Encode(CanonicalValue.Absent) == Some([0])
    ensures CanonicalValue.Encode(CanonicalValue.Boolean(false)) == Some([1, 0])
    ensures CanonicalValue.Encode(CanonicalValue.Boolean(true)) == Some([1, 1])
    ensures CanonicalValue.Encode(CanonicalValue.Integer(258)) == Some([2, 0, 0, 0, 0, 0, 0, 1, 2])
    ensures CanonicalValue.Encode(CanonicalValue.Integer(-2)) == Some([2, 255, 255, 255, 255, 255, 255, 255, 254])
    ensures CanonicalValue.Encode(CanonicalValue.Number(258)) == Some([3, 0, 0, 0, 0, 0, 0, 1, 2])
  {
    IntegerForm();
    NegativeForm();
    assert CanonicalValue.Finite(258) && CanonicalValue.WithoutSignOfZero(258) == 258 == ToBits(258);
    hide U64, ToBits, CanonicalValue.Finite, CanonicalValue.WithoutSignOfZero;
    assert [2] + U64(ToBits(258)) == [2, 0, 0, 0, 0, 0, 0, 1, 2];
    assert [2] + U64(ToBits(-2)) == [2, 255, 255, 255, 255, 255, 255, 255, 254];
    assert [3] + U64(ToBits(258)) == [3, 0, 0, 0, 0, 0, 0, 1, 2];
  }

  lemma StringForms()
    ensures CanonicalValue.Encode(CanonicalValue.Text([104, 105])) == Some([4] + ([0, 0, 0, 2] + [104, 105]))
    ensures CanonicalValue.Encode(CanonicalValue.Blob([7])) == Some([5] + ([0, 0, 0, 1] + [7]))
  {
    LengthForm();
    hide PushLen;
  }

  /** A list announces how many values follow. */
  lemma ListForm()
    ensures CanonicalValue.Encode(CanonicalValue.List([CanonicalValue.Boolean(true), CanonicalValue.Absent]))
            == Some([6] + [0, 0, 0, 2] + ([1, 1] + ([0] + [])))
  {
    LengthForm();
    hide PushLen;
    var t, n := CanonicalValue.Boolean(true), CanonicalValue.Absent;
    var none: seq<CanonicalValue.Value> := [];
    assert [t, n][1..] == [n] && [n][1..] == none;
    assert CanonicalValue.EncodeItems(none) == Some([]);
    assert CanonicalValue.Encode(n) == Some([0]) && CanonicalValue.Encode(t) == Some([1, 1]);
    assert CanonicalValue.EncodeItems([n]) == Some([0] + []);
    CanonicalValue.EncodeList(CanonicalValue.List([t, n]));
    hide CanonicalValue.Encode;
  }

  /** An object announces how many keys follow, each before its value. */
  lemma ObjectForm()
    ensures CanonicalValue.Encode(CanonicalValue.Object(map[[97] := CanonicalValue.Absent]))
            == Some([7] + [0, 0, 0, 1] + ([0, 0, 0, 1] + [97] + [0] + []))
  {
    LengthForm();
    hide PushLen;
    var key: bytes := [97];
    var fields: map<bytes, CanonicalValue.Value> := map[key := CanonicalValue.Absent];
    var o := CanonicalValue.Object(fields);
    assert fields.Keys == {key} && |fields| == 1;
    OneKey(key);
    assert [key][1..] == [] && CanonicalValue.Encode(fields[key]) == Some([0]);
    CanonicalValue.EncodeObject(o);
    hide CanonicalValue.Encode, CanonicalValue.Ordered;
    assert CanonicalValue.EncodeFields(o, []) == Some([]);
    assert CanonicalValue.EncodeFields(o, [key]) == Some(PushBytes(key) + [0] + []);
  }

  lemma OneKey(key: bytes)
    ensures CanonicalValue.Ordered({key}) == [key]
  {
    var s := CanonicalValue.Ordered({key});
    assert multiset(s) == multiset({key});
    SortedUnique(s, [key]);
  }

  // ----- Digests -----

  /** Domain, zero, version, zero, body. */
  lemma FramedForm(domain: bytes, body: bytes)
    ensures AuthorizationDigests.Framed(domain, body) == domain + [0, 49, 0] + body
  {
    assert AuthorizationDigests.DIGEST_VERSION == [49];
  }

  lemma OneMore(fields: seq<bytes>, x: bytes)
    ensures AuthorizationDigests.PushAll([x] + fields) == PushBytes(x) + AuthorizationDigests.PushAll(fields)
  {
    assert ([x] + fields)[1..] == fields;
  }

  /** An item, field by field: its own fields, how many dependencies and which, and the context of a command. */
  lemma ItemForm(item: BatchDigest.Item)
    ensures BatchDigest.ItemBytes(item)
            == PushBytes(item.itemId) + PushBytes(item.payloadDigest) + PushBytes(item.providerDid)
               + PushBytes(item.capabilityId)
               + PushBytes(AuthorizationDigests.Ascii(Decimal.OfInt(item.dataClass)))
               + PushBytes(AuthorizationDigests.Ascii(Decimal.OfInt(item.destination)))
               + PushBytes(AuthorizationDigests.Ascii(Decimal.OfInt(item.retention)))
               + PushLen(|Sort(item.dependsOn)|) + AuthorizationDigests.PushAll(Sort(item.dependsOn))
               + PushBytes(item.contractFingerprint) + PushBytes(item.toolName) + PushBytes(item.registryDigest)
  {
    hide Sort, PushBytes, PushLen, AuthorizationDigests.Ascii, Decimal.OfInt;
    var f, b := BatchDigest.Front(item), BatchDigest.Back(item);
    ThreeForm(b);
    SevenForm(f);
  }

  lemma ThreeForm(f: seq<bytes>)
    requires |f| == 3
    ensures AuthorizationDigests.PushAll(f) == PushBytes(f[0]) + PushBytes(f[1]) + PushBytes(f[2])
  {
    hide PushBytes;
    var none: seq<bytes> := [];
    OneMore(none, f[2]);
    assert [f[2]] + none == f[2..] && f[1..] == [f[1]] + f[2..] && f == [f[0]] + f[1..];
    OneMore(f[2..], f[1]);
    OneMore(f[1..], f[0]);
  }

  lemma SevenForm(f: seq<bytes>)
    requires |f| == 7
    ensures AuthorizationDigests.PushAll(f)
            == PushBytes(f[0]) + PushBytes(f[1]) + PushBytes(f[2]) + PushBytes(f[3]) + PushBytes(f[4])
               + PushBytes(f[5]) + PushBytes(f[6])
  {
    hide PushBytes;
    ThreeForm(f[4..]);
    HeadForm(f, 3);
    HeadForm(f, 2);
    HeadForm(f, 1);
    HeadForm(f, 0);
    hide AuthorizationDigests.PushAll;
    assert f[0..] == f;
  }

  lemma HeadForm(f: seq<bytes>, i: nat)
    requires i < |f|
    ensures AuthorizationDigests.PushAll(f[i..]) == PushBytes(f[i]) + AuthorizationDigests.PushAll(f[i + 1..])
  {
    assert f[i..][1..] == f[i + 1..];
  }

  /** A batch: its ids, its expiry as decimal text, how many items, and the items by id. */
  lemma BatchForm(batch: BatchDigest.Batch)
    ensures BatchDigest.Body(batch)
            == PushBytes(batch.authorizationId) + PushBytes(batch.conversationId) + PushBytes(batch.turnId)
               + PushBytes(AuthorizationDigests.Ascii(Decimal.OfInt(batch.expiresAt)))
               + PushLen(|batch.items|) + BatchDigest.ItemsBytes(BatchDigest.SortItems(batch.items))
  {
    hide PushBytes, PushLen, AuthorizationDigests.Ascii, Decimal.OfInt, BatchDigest.ItemsBytes, BatchDigest.SortItems;
    var h := BatchDigest.Head(batch);
    assert h == [h[0]] + h[1..];
    ThreeForm(h[1..]);
    OneMore(h[1..], h[0]);
  }

  // ----- Envelopes -----

  lemma FieldForm(tag: nat, x: byte)
    requires 1 <= tag < 16
    ensures EnvelopeScan.Delimited(tag, [x]).Encode() == [8 * tag + 2, 1, x]
  {
    assert Wire.EncodeVarint(1) == [1] && Wire.EncodeVarint(8 * tag + 2) == [8 * tag + 2];
  }

  function Texts(e: EnvelopeScan.Envelope): seq<EnvelopeScan.Field> {
    [EnvelopeScan.Delimited(1, e.messageId), EnvelopeScan.Delimited(2, e.source), EnvelopeScan.Delimited(3, e.dest),
     EnvelopeScan.Scalar(4, e.timestamp), EnvelopeScan.Delimited(5, e.version),
     EnvelopeScan.Delimited(6, e.signature), EnvelopeScan.Delimited(e.payloadTag, e.payload)]
  }

  lemma AllWritten(e: EnvelopeScan.Envelope)
    requires e.messageId != [] && e.source != [] && e.dest != [] && e.timestamp != 0 && e.version != []
    requires e.signature != []
    ensures EnvelopeScan.FieldsOf(e) == Texts(e)
  {
  }

  /** Message id, source, destination, timestamp, version and signature have the tags 1 to 6. */
  lemma EnvelopeForm()
    ensures var e := EnvelopeScan.Envelope([109], [115], [100], 5, [118], [103], 12, [112]);
            EnvelopeScan.EncodeFields(EnvelopeScan.FieldsOf(e))
            == [10, 1, 109] + ([18, 1, 115] + ([26, 1, 100] + ([32, 5] + ([42, 1, 118] + ([50, 1, 103]
               + ([98, 1, 112] + []))))))
  {
    var e := EnvelopeScan.Envelope([109], [115], [100], 5, [118], [103], 12, [112]);
    AllWritten(e);
    FieldForm(1, 109);
    FieldForm(2, 115);
    FieldForm(3, 100);
    FieldForm(5, 118);
    FieldForm(6, 103);
    FieldForm(12, 112);
    TimeForm();
    hide EnvelopeScan.FieldsOf, Wire.EncodeVarint;
    SevenFields(Texts(e));
  }

  lemma TimeForm()
    ensures EnvelopeScan.Scalar(4, 5).Encode() == [32, 5]
  {
    assert Wire.EncodeVarint(32) == [32] && Wire.EncodeVarint(5) == [5];
  }

  lemma SevenFields(f: seq<EnvelopeScan.Field>)
    requires |f| == 7
    ensures EnvelopeScan.EncodeFields(f)
            == f[0].Encode() + (f[1].Encode() + (f[2].Encode() + (f[3].Encode() + (f[4].Encode() + (f[5].Encode()
               + (f[6].Encode() + []))))))
  {
    FieldsFrom(f, 0);
    FieldsFrom(f, 1);
    FieldsFrom(f, 2);
    FieldsFrom(f, 3);
    FieldsFrom(f, 4);
    FieldsFrom(f, 5);
    FieldsFrom(f, 6);
    assert f[0..] == f && EnvelopeScan.EncodeFields(f[7..]) == [];
    hide EnvelopeScan.EncodeFields;
  }

  lemma FieldsFrom(f: seq<EnvelopeScan.Field>, i: nat)
    requires i < |f|
    ensures EnvelopeScan.EncodeFields(f[i..]) == f[i].Encode() + EnvelopeScan.EncodeFields(f[i + 1..])
  {
    assert f[i..][1..] == f[i + 1..];
  }

  // ----- Timestamps -----

  /** A date, `T`, a time of day with milliseconds, and `Z`. */
  lemma EpochForm()
    ensures CivilDate.Iso8601(0)
            == "1970" + ("-" + "01" + "-" + "01" + "T" + "00" + ":" + "00" + ":" + "00" + "." + "000" + "Z")
  {
    EpochStamp();
    YearForms();
    PadForms();
    hide CivilDate.StampOf, CivilDate.Pad, CivilDate.PadYear;
  }

  lemma EpochStamp()
    ensures CivilDate.StampOf(0) == CivilDate.Stamp(CivilDate.Date(1970, 1, 1), 0, 0, 0, 0)
  {
    CivilDate.Epoch();
    hide CivilDate.Civil;
  }

  lemma YearForms()
    ensures CivilDate.PadYear(1970) == "1970" && CivilDate.PadYear(2026) == "2026"
  {
    assert Decimal.OfNat(197) == "197" && Decimal.OfNat(202) == "202";
  }

  lemma PadForms()
    ensures CivilDate.Pad(0, 2) == "00" && CivilDate.Pad(1, 2) == "01" && CivilDate.Pad(0, 3) == "000"
    ensures CivilDate.Pad(9, 2) == "09" && CivilDate.Pad(21, 2) == "21"
    ensures CivilDate.Pad(14, 2) == "14" && CivilDate.Pad(13, 2) == "13" && CivilDate.Pad(20, 2) == "20"
  {
  }

  lemma SomeStamp()
    ensures CivilDate.StampOf(1_790_000_000_000) == CivilDate.Stamp(CivilDate.Date(2026, 9, 21), 14, 13, 20, 0)
  {
    SomeDay();
    var secs := 1_790_000_000;
    assert 1_790_000_000_000 / 1000 == secs && 1_790_000_000_000 % 1000 == 0;
    assert secs / 86_400 == 20_717 && secs % 86_400 == 51_200;
    hide CivilDate.Civil;
    assert 51_200 / 3600 == 14 && 51_200 % 3600 == 800 && 800 / 60 == 13 && 51_200 % 60 == 20;
  }

  lemma SomeDay()
    ensures CivilDate.Civil(20_717) == CivilDate.Date(2026, 9, 21)
  {
    assert CivilDate.Era(20_717) == 5 && CivilDate.EraDay(20_717) == 9_700;
    assert CivilDate.YearOfEra(9_700) == 26 && CivilDate.YearStart(26) == 9_496;
    assert CivilDate.FromYear(2026, 204) == CivilDate.Date(2026, 9, 21);
    hide CivilDate.Era, CivilDate.EraDay, CivilDate.YearOfEra, CivilDate.YearStart, CivilDate.FromYear;
  }

  lemma SomeForm()
    ensures CivilDate.Iso8601(1_790_000_000_000)
            == "2026" + ("-" + "09" + "-" + "21" + "T" + "14" + ":" + "13" + ":" + "20" + "." + "000" + "Z")
  {
    SomeStamp();
    YearForms();
    PadForms();
    hide CivilDate.StampOf, CivilDate.Pad, CivilDate.PadYear;
  }
}
