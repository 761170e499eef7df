/**
 Envelopes with groups among their fields. The decoder skips a group of an unknown tag, nested as deep as
 its recursion limit allows; the scan for the payload refuses any group that it meets.
 */
module EnvelopeGroups {
  import opened Wrappers
  import opened Bytes
  import opened Wire
  import opened EnvelopeScan

  datatype Item = Plain(field: Field) | Group(tag: nat, items: seq<Item>)

  predicate ValidItem(item: Item) {
    match item
    case Plain(f) => f.Valid()
    case Group(tag, items) => 1 <= tag < TWO_29 && forall i :: 0 <= i < |items| ==> ValidItem(items[i])
  }

  predicate ValidItems(items: seq<Item>) { forall i :: 0 <= i < |items| ==> ValidItem(items[i]) }

  function Start(tag: nat): bytes { EncodeVarint(8 * tag + 3) }

  function End(tag: nat): bytes { EncodeVarint(8 * tag + 4) }

  function EncodeItem(item: Item): bytes
    decreases item, 1
  {
    match item
    case Plain(f) => f.Encode()
    case Group(tag, items) => Start(tag) + (EncodeItems(items) + End(tag))
  }

  function EncodeItems(items: seq<Item>): bytes
    decreases items, 0
  {
    if items == [] then [] else EncodeItem(items[0]) + EncodeItems(items[1..])
  }

  /** What stands outside groups. */
  function PlainFields(items: seq<Item>): seq<Field> {
    if items == [] then []
    else (if items[0].Plain? then [items[0].field] else []) + PlainFields(items[1..])
  }

  // ----- Skipping -----

  /** Nested no deeper than `limit`; an empty group needs no room. */
  predicate Shallow(items: seq<Item>, limit: nat)
    decreases items, limit
  {
    items == []
    || (limit > 0 && (items[0].Group? ==> Shallow(items[0].items, limit - 1)) && Shallow(items[1..], limit))
  }

  lemma SkipPlain(f: Field, after: bytes, tag: nat, limit: nat)
    requires f.Valid()
    ensures SkipGroup(f.Encode() + after, tag, limit) == if limit == 0 then None else SkipGroup(after, tag, limit)
  {
    KeyOfField(f, after);
    FieldRoundTrip(f, after);
  }

  /** What reading the key of a group leaves. */
  lemma ReadsStart(tag: nat, items: seq<Item>, after: bytes)
    requires 1 <= tag < TWO_29
    ensures DecodeKey(EncodeItem(Group(tag, items)) + after) == Some((tag, 3, EncodeItems(items) + (End(tag) + after)))
  {
    hide DecodeKey;
    assert EncodeItem(Group(tag, items)) + after == Start(tag) + (EncodeItems(items) + (End(tag) + after));
    KeyRoundTrip(tag, 3, EncodeItems(items) + (End(tag) + after));
  }

  /** A group is skipped, up to its own end, exactly when it is nested within the limit. */
  lemma {:induction false} SkipsExactly(items: seq<Item>, tag: nat, rest: bytes, limit: nat)
    requires ValidItems(items) && 1 <= tag < TWO_29
    ensures SkipGroup(EncodeItems(items) + (End(tag) + rest), tag, limit)
            == if Shallow(items, limit) then Some(rest) else None
    decreases items, limit
  {
    hide DecodeKey, End;
    if items == [] {
      assert EncodeItems(items) + (End(tag) + rest) == End(tag) + rest;
      ReadsEnd(tag, rest);
    } else {
      var after := EncodeItems(items[1..]) + (End(tag) + rest);
      assert EncodeItems(items) + (End(tag) + rest) == EncodeItem(items[0]) + after;
      assert ValidItem(items[0]);
      if limit > 0 {
        SkipsExactly(items[1..], tag, rest, limit);
      }
      match items[0]
      case Plain(f) =>
        hide SkipGroup;
        SkipPlain(f, after, tag, limit);
      case Group(inner, more) =>
        ReadsStart(inner, more, after);
        if limit > 0 {
          SkipsExactly(more, inner, after, limit - 1);
        }
    }
  }

  lemma ReadsEnd(tag: nat, rest: bytes)
    requires 1 <= tag < TWO_29
    ensures DecodeKey(End(tag) + rest) == Some((tag, 4, rest))
  {
    KeyRoundTrip(tag, 4, rest);
  }

  // ----- Decoding and scanning -----

  /** Every group has an unknown tag and is nested within the limit. */
  predicate Decodable(items: seq<Item>) {
    forall i :: 0 <= i < |items| && items[i].Group? ==>
                  Slot(items[i].tag) == 0 && Shallow(items[i].items, RECURSION_LIMIT - 1)
  }

  lemma DecodePlain(f: Field, after: bytes)
    requires f.Valid()
    ensures DecodeFields(f.Encode() + after)
            == (match DecodeFields(after) case None => None case Some(fields) => Some([f] + fields))
  {
    KeyOfField(f, after);
    FieldRoundTrip(f, after);
  }

  lemma DecodeGroup(tag: nat, items: seq<Item>, after: bytes)
    requires 1 <= tag < TWO_29 && ValidItems(items)
    ensures DecodeFields(EncodeItem(Group(tag, items)) + after)
            == if Slot(tag) == 0 && Shallow(items, RECURSION_LIMIT - 1) then DecodeFields(after) else None
  {
    ReadsStart(tag, items, after);
    SkipsExactly(items, tag, after, RECURSION_LIMIT - 1);
    hide DecodeKey, Slot, Shallow, SkipGroup, EncodeItem, EncodeItems;
  }

  lemma {:induction false} DecodesExactly(items: seq<Item>)
    requires ValidItems(items)
    ensures DecodeFields(EncodeItems(items)) == if Decodable(items) then Some(PlainFields(items)) else None
  {
    if items != [] {
      var after := EncodeItems(items[1..]);
      DecodesExactly(items[1..]);
      DecodableStep(items);
      assert EncodeItems(items) == EncodeItem(items[0]) + after && ValidItem(items[0]);
      hide DecodeFields, EncodeItems, Decodable, Slot, Shallow;
      match items[0]
      case Plain(f) => DecodePlain(f, after);
      case Group(tag, more) =>
        DecodeGroup(tag, more, after);
        assert [] + PlainFields(items[1..]) == PlainFields(items[1..]);
    }
  }

  lemma DecodableStep(items: seq<Item>)
    requires items != []
    ensures Decodable(items)
            <==> Decodable(items[1..])
                 && (items[0].Group? ==> Slot(items[0].tag) == 0 && Shallow(items[0].items, RECURSION_LIMIT - 1))
  {
    hide Slot, Shallow;
    if Decodable(items[1..]) {
      forall i | 0 < i < |items| && items[i].Group?
        ensures Slot(items[i].tag) == 0 && Shallow(items[i].items, RECURSION_LIMIT - 1)
      {
        assert items[1..][i - 1] == items[i];
      }
    }
  }

  /** A group stands before the first payload. */
  predicate GroupFirst(items: seq<Item>) {
    items != [] && (items[0].Group? || (!items[0].field.IsPayload() && GroupFirst(items[1..])))
  }

  lemma {:induction false} ScansExactly(items: seq<Item>)
    requires ValidItems(items)
    ensures RawPayload(EncodeItems(items)) == if GroupFirst(items) then None else Some(Scanned(PlainFields(items)))
  {
    if items != [] {
      var after := EncodeItems(items[1..]);
      assert EncodeItems(items) == EncodeItem(items[0]) + after && ValidItem(items[0]);
      match items[0]
      case Plain(f) =>
        FieldRoundTrip(f, after);
        assert PlainFields(items)[0] == f && PlainFields(items)[1..] == PlainFields(items[1..]);
        if !f.IsPayload() {
          ScansExactly(items[1..]);
        }
      case Group(tag, more) => ReadsStart(tag, more, after);
    }
  }

  /** The decoder reads what the scan refuses exactly when its groups are unknown and nested within the
      limit, and one of them stands before the first payload. */
  lemma GroupsPart(items: seq<Item>)
    requires ValidItems(items)
    ensures DecodeFields(EncodeItems(items)).Some? && RawPayload(EncodeItems(items)).None?
            <==> Decodable(items) && GroupFirst(items)
  {
    DecodesExactly(items);
    ScansExactly(items);
  }

  /** `VerifiesExactly` with groups among the fields. */
  lemma GroupsVerifyExactly(schema: Schema, valid: Check, items: seq<Item>, e: Envelope)
    requires ValidItems(items)
    ensures var fields := PlainFields(items);
            VerifyEnvelopeBytes(schema, valid, EncodeItems(items)) == Genuine(e)
            <==> Decodable(items) && !GroupFirst(items)
                 && AllReadable(schema, fields) && MergeAll(EmptyEnvelope(), fields) == Some(e)
                 && SignedOver(valid, e, Scanned(fields))
  {
    hide SignatureText, MergeAll, EncodeItems, Decodable;
    DecodesExactly(items);
    ScansExactly(items);
  }

  // ----- One group among fields -----

  function Items(fields: seq<Field>): seq<Item> {
    if fields == [] then [] else [Plain(fields[0])] + Items(fields[1..])
  }

  lemma {:induction false} AroundGroup(fields: seq<Field>, tag: nat, inner: seq<Item>, more: seq<Field>)
    ensures var items := Items(fields) + ([Group(tag, inner)] + Items(more));
            && PlainFields(items) == fields + more
            && (GroupFirst(items) <==> FirstPayload(fields) == None)
    decreases |fields|
  {
    var items := Items(fields) + ([Group(tag, inner)] + Items(more));
    if fields == [] {
      assert items == [Group(tag, inner)] + Items(more) && items[1..] == Items(more);
      OnlyFields(more);
      assert [] + more == more;
    } else {
      var tail := Items(fields[1..]) + ([Group(tag, inner)] + Items(more));
      assert items == [Plain(fields[0])] + tail && items[1..] == tail;
      AroundGroup(fields[1..], tag, inner, more);
      assert [fields[0]] + (fields[1..] + more) == fields + more;
    }
  }

  lemma {:induction false} OnlyFields(fields: seq<Field>)
    ensures PlainFields(Items(fields)) == fields && forall i :: 0 <= i < |Items(fields)| ==> Items(fields)[i].Plain?
    ensures (forall i :: 0 <= i < |fields| ==> fields[i].Valid()) ==> ValidItems(Items(fields))
  {
    if fields != [] {
      OnlyFields(fields[1..]);
      var items := Items(fields);
      assert items[1..] == Items(fields[1..]);
      assert forall i :: 0 < i < |items| ==> items[i] == items[1..][i - 1];
      assert forall i :: 0 <= i < |fields[1..]| ==> fields[1..][i] == fields[i + 1];
    }
  }

  /** One group of an unknown tag between fields: the decoder gives the fields, and the scan refuses the
      envelope exactly when no payload precedes the group. */
  lemma OneGroup(fields: seq<Field>, tag: nat, inner: seq<Item>, more: seq<Field>)
    requires forall i :: 0 <= i < |fields| ==> fields[i].Valid()
    requires forall i :: 0 <= i < |more| ==> more[i].Valid()
    requires 1 <= tag < TWO_29 && Slot(tag) == 0 && ValidItems(inner) && Shallow(inner, RECURSION_LIMIT - 1)
    ensures var s := EncodeItems(Items(fields) + ([Group(tag, inner)] + Items(more)));
            && DecodeFields(s) == Some(fields + more)
            && (RawPayload(s) == None <==> FirstPayload(fields) == None)
  {
    hide EncodeItems, DecodeFields, RawPayload, Shallow, Slot, GroupFirst;
    OnlyFields(fields);
    OnlyFields(more);
    AroundGroup(fields, tag, inner, more);
    var items := Items(fields) + ([Group(tag, inner)] + Items(more));
    assert ValidItem(Group(tag, inner));
    forall i | 0 <= i < |items|
      ensures ValidItem(items[i]) && (items[i].Group? ==> items[i] == Group(tag, inner))
    {
      if i < |Items(fields)| {
        assert items[i] == Items(fields)[i];
      } else if i > |Items(fields)| {
        assert items[i] == Items(more)[i - |Items(fields)| - 1];
      }
    }
    DecodesExactly(items);
    ScansExactly(items);
  }

  /** An envelope that decodes and that the scan refuses: a source, a signature, an empty group of tag 8, and
      only then the payload. */
  lemma GroupInstance()
    ensures var s := EncodeItems([Plain(Delimited(2, [100])), Plain(Delimited(6, [1])), Group(8, []),
                                  Plain(Delimited(12, [7]))]);
            && DecodeFields(s) == Some([Delimited(2, [100]), Delimited(6, [1]), Delimited(12, [7])])
            && RawPayload(s) == None
  {
    var f, g, p := Delimited(2, [100]), Delimited(6, [1]), Delimited(12, [7]);
    assert !f.IsPayload() && !g.IsPayload() && Slot(8) == 0;
    assert [f, g][1..] == [g] && [g][1..] == [] && [p][1..] == [];
    OneGroup([f, g], 8, [], [p]);
    assert Items([g]) == [Plain(g)] && Items([f, g]) == [Plain(f), Plain(g)] && Items([p]) == [Plain(p)];
    assert FirstPayload([g]) == None;
    assert [f, g] + [p] == [f, g, p];
    assert [Plain(f), Plain(g)] + ([Group(8, [])] + [Plain(p)]) == [Plain(f), Plain(g), Group(8, []), Plain(p)];
  }
}
