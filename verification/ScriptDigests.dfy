/**
 The TypeScript twin of the canonical encodings: a builder that keeps parts and joins them at the end.
 It produces the same bytes as the Rust encoder for every value and every batch.
 */
module ScriptDigests {
  import opened Wrappers
  import opened Bytes
  import opened CanonicalValue
  import opened BatchDigest
  import opened ScriptSort
  import AuthorizationDigests
  import Decimal
  import Wire

  lemma {:induction false} JoinSnoc(parts: seq<bytes>, part: bytes)
    ensures Wire.Join(parts + [part]) == Wire.Join(parts) + part
  {
    if parts == [] {
      assert [] + [part] == [part] && [part][1..] == [] && part + [] == part == [] + part;
    } else {
      assert (parts + [part])[1..] == parts[1..] + [part];
      JoinSnoc(parts[1..], part);
      Concat(parts[0], Wire.Join(parts[1..]), part);
    }
  }

  class Parts {
    var parts: seq<bytes>

    ghost function Joined(): bytes
      reads this
    {
      Wire.Join(parts)
    }

    constructor ()
      ensures parts == [] && Joined() == []
    {
      parts := [];
    }

    method Raw(part: bytes)
      modifies this
      ensures parts == old(parts) + [part] && Joined() == old(Joined()) + part
    {
      JoinSnoc(parts, part);
      parts := parts + [part];
    }

    method PutByte(value: byte)
      modifies this
      ensures Joined() == old(Joined()) + [value]
    {
      Raw([value]);
    }

    method Len(value: nat)
      modifies this
      ensures Joined() == old(Joined()) + PushLen(value)
    {
      Raw(U32(value));
    }

    method Put(part: bytes)
      modifies this
      ensures Joined() == old(Joined()) + PushBytes(part)
    {
      ghost var start := Joined();
      Len(|part|);
      Raw(part);
      Concat(start, PushLen(|part|), part);
    }

    /** One buffer of the total length, each part copied to its offset. */
    method Done() returns (out: array<byte>)
      ensures fresh(out) && out[..] == Joined()
    {
      var total := 0;
      for i := 0 to |parts|
        invariant total == |Wire.Join(parts[..i])|
      {
        assert parts[..i + 1] == parts[..i] + [parts[i]];
        JoinSnoc(parts[..i], parts[i]);
        total := total + |parts[i]|;
      }
      assert parts[..|parts|] == parts;
      out := new byte[total](_ => 0);
      var offset := 0;
      for i := 0 to |parts|
        invariant offset == |Wire.Join(parts[..i])| && offset + |Wire.Join(parts[i..])| == total
        invariant out[..offset] == Wire.Join(parts[..i])
      {
        assert parts[..i + 1] == parts[..i] + [parts[i]] && parts[i..][0] == parts[i]
            && parts[i..][1..] == parts[i + 1..];
        JoinSnoc(parts[..i], parts[i]);
        CopyTo(out, offset, parts[i]);
        offset := offset + |parts[i]|;
      }
      assert parts[..|parts|] == parts && parts[|parts|..] == [];
    }
  }

  /** `out.set(part, offset)` */
  method CopyTo(out: array<byte>, offset: nat, part: bytes)
    requires offset + |part| <= out.Length
    modifies out
    ensures out[..offset] == old(out[..offset]) && out[..offset + |part|] == old(out[..offset]) + part
  {
    for j := 0 to |part|
      invariant out[..offset] == old(out[..offset])
      invariant out[offset..offset + j] == part[..j]
    {
      out[offset + j] := part[j];
    }
    assert out[..offset + |part|] == out[..offset] + out[offset..offset + |part|];
  }

  // ----- Values -----

  /** Where the script throws, `ok` is false and the parts are dropped. */
  method EncodeValue(value: Value, out: Parts) returns (ok: bool)
    modifies out
    ensures ok <==> Encode(value).Some?
    ensures ok ==> out.Joined() == old(out.Joined()) + Encode(value).value
    decreases value, 1
  {
    ghost var start := out.Joined();
    if value.List? {
      EncodeList(value);
      out.PutByte(0x06);
      out.Len(|value.values|);
      ok := EncodeEach(value.values, out);
      if ok {
        AppendFramed(start, [0x06], PushLen(|value.values|), EncodeItems(value.values).value);
      }
    } else if value.Object? {
      EncodeObject(value);
      out.PutByte(0x07);
      var keys := ScriptKeys(value.fields);
      out.Len(|keys|);
      ok := EncodeEntries(value, keys, out);
      if ok {
        AppendFramed(start, [0x07], PushLen(|keys|), EncodeFields(value, keys).value);
      }
    } else {
      ok := EncodeScalar(value, out);
    }
  }

  /** The keys of an object, in whatever order it lists them, sorted by `byteCompare`. */
  method ScriptKeys(fields: map<bytes, Value>) returns (keys: seq<bytes>)
    ensures keys == Ordered(fields.Keys)
  {
    var listed := CollectKeys(fields);
    keys := SortBy(Difference, listed);
    SortsAgree(listed, []);
    SortSorts(listed);
    SortedUnique(keys, Ordered(fields.Keys));
  }

  lemma AppendTwo(start: bytes, tag: bytes, body: bytes)
    ensures start + tag + body == start + (tag + body)
  {
  }

  method EncodeScalar(value: Value, out: Parts) returns (ok: bool)
    requires !value.List? && !value.Object?
    modifies out
    ensures ok <==> Encode(value).Some?
    ensures ok ==> out.Joined() == old(out.Joined()) + Encode(value).value
  {
    hide PushBytes, U64, ToBits, Finite;
    ghost var start := out.Joined();
    ok := true;
    match value
    case Absent =>
      out.PutByte(0x00);
    case Boolean(b) =>
      out.PutByte(0x01);
      out.PutByte(if b then 1 else 0);
      AppendTwo(start, [0x01], [if b then 1 else 0]);
    case Integer(i) =>
      out.PutByte(0x02);
      out.Raw(U64(ToBits(i)));
      AppendTwo(start, [0x02], U64(ToBits(i)));
    case Number(n) =>
      if !Finite(n) {
        return false;
      }
      out.PutByte(0x03);
      out.Raw(U64(WithoutSignOfZero(n)));
      AppendTwo(start, [0x03], U64(WithoutSignOfZero(n)));
    case Text(s) =>
      out.PutByte(0x04);
      out.Put(s);
      AppendTwo(start, [0x04], PushBytes(s));
    case Blob(b) =>
      out.PutByte(0x05);
      out.Put(b);
      AppendTwo(start, [0x05], PushBytes(b));
    case Artifact =>
      return false;
  }

  method EncodeEach(values: seq<Value>, out: Parts) returns (ok: bool)
    modifies out
    ensures ok <==> EncodeItems(values).Some?
    ensures ok ==> out.Joined() == old(out.Joined()) + EncodeItems(values).value
    decreases values
  {
    hide Encode;
    ghost var start := out.Joined();
    ghost var body := [];
    PrefixedEmpty(EncodeItems(values));
    assert values[0..] == values && start + [] == start;
    for i := 0 to |values|
      invariant out.Joined() == start + body
      invariant EncodeItems(values) == Prefixed(body, EncodeItems(values[i..]))
    {
      EncodeItemsStep(values, i, body);
      var done := EncodeValue(values[i], out);
      if !done {
        return false;
      }
      Concat(start, body, Encode(values[i]).value);
      body := body + Encode(values[i]).value;
    }
    assert values[|values|..] == [] && body + [] == body;
    return true;
  }

  method EncodeEntries(value: Value, keys: seq<bytes>, out: Parts) returns (ok: bool)
    requires value.Object? && forall k :: k in keys ==> k in value.fields
    modifies out
    ensures ok <==> EncodeFields(value, keys).Some?
    ensures ok ==> out.Joined() == old(out.Joined()) + EncodeFields(value, keys).value
    decreases value, 0
  {
    ghost var start := out.Joined();
    ghost var body := [];
    PrefixedEmpty(EncodeFields(value, keys));
    assert keys[0..] == keys && start + [] == start;
    for i := 0 to |keys|
      invariant out.Joined() == start + body
      invariant EncodeFields(value, keys) == Prefixed(body, EncodeFields(value, keys[i..]))
    {
      var key := keys[i];
      EncodeFieldsStep(value, keys, i, body);
      out.Put(key);
      var done := EncodeValue(value.fields[key], out);
      if !done {
        return false;
      }
      ghost var entry := PushBytes(key) + Encode(value.fields[key]).value;
      AppendEntry(start, body, PushBytes(key), Encode(value.fields[key]).value);
      body := body + entry;
    }
    assert keys[|keys|..] == [] && body + [] == body;
    return true;
  }

  lemma AppendEntry(start: bytes, body: bytes, key: bytes, value: bytes)
    ensures start + body + key + value == start + (body + (key + value))
  {
  }

  // ----- Batches -----

  method PutAll(out: Parts, fields: seq<bytes>)
    modifies out
    ensures out.Joined() == old(out.Joined()) + AuthorizationDigests.PushAll(fields)
  {
    ghost var start := out.Joined();
    assert fields[..|fields|] == fields && start + [] == start;
    for i := 0 to |fields|
      invariant out.Joined() == start + AuthorizationDigests.PushAll(fields[..i])
    {
      assert fields[..i + 1] == fields[..i] + [fields[i]];
      AuthorizationDigests.PushAllSnoc(fields[..i], fields[i]);
      Concat(start, AuthorizationDigests.PushAll(fields[..i]), PushBytes(fields[i]));
      out.Put(fields[i]);
    }
  }

  /** `String(i)` in UTF-8. */
  function Script(i: int): bytes { AuthorizationDigests.Ascii(Decimal.OfInt(i)) }

  /** What `framed` hashes: domain, zero, version, zero, body. */
  method FramedBytes(domain: bytes, body: bytes) returns (input: array<byte>)
    ensures fresh(input) && input[..] == AuthorizationDigests.Framed(domain, body)
  {
    var out := new Parts();
    out.Raw(domain);
    out.PutByte(0);
    out.Raw(AuthorizationDigests.Ascii("1"));
    out.PutByte(0);
    out.Raw(body);
    input := out.Done();
    assert [] + domain == domain;
  }

  method PutItem(out: Parts, item: Item)
    modifies out
    ensures out.Joined() == old(out.Joined()) + ItemBytes(item)
  {
    ghost var start := out.Joined();
    PutAll(out, [item.itemId, item.payloadDigest, item.providerDid, item.capabilityId,
                 Script(item.dataClass), Script(item.destination), Script(item.retention)]);
    var deps := SortBy(Difference, item.dependsOn);
    SortsAgree(item.dependsOn, []);
    out.Len(|deps|);
    PutAll(out, deps);
    PutAll(out, [item.contractFingerprint, item.toolName, item.registryDigest]);
    AppendItem(start, AuthorizationDigests.PushAll(Front(item)), PushLen(|deps|), AuthorizationDigests.PushAll(deps),
               AuthorizationDigests.PushAll(Back(item)));
  }

  method PutItems(out: Parts, items: seq<Item>)
    modifies out
    ensures out.Joined() == old(out.Joined()) + ItemsBytes(items)
  {
    hide ItemBytes;
    ghost var start := out.Joined();
    assert start + [] == start;
    for i := 0 to |items|
      invariant out.Joined() == start + ItemsBytes(items[..i])
    {
      assert items[..i + 1] == items[..i] + [items[i]];
      ItemsBytesSnoc(items[..i], items[i]);
      Concat(start, ItemsBytes(items[..i]), ItemBytes(items[i]));
      PutItem(out, items[i]);
    }
    assert items[..|items|] == items;
  }

  /** The bytes `batchDigest` hashes are those of `batch_digest`. */
  method BatchBytes(batch: Batch) returns (body: array<byte>)
    ensures fresh(body) && body[..] == Body(batch)
  {
    hide ItemsBytes, AuthorizationDigests.PushAll, PushLen, SortItems;
    var out := new Parts();
    PutAll(out, [batch.authorizationId, batch.conversationId, batch.turnId, Script(batch.expiresAt)]);
    var items := SortBy(ByItemId, batch.items);
    SortsAgree([], batch.items);
    SortItemsSorts(batch.items);
    out.Len(|items|);
    PutItems(out, items);
    ghost var head := AuthorizationDigests.PushAll(Head(batch));
    assert [] + head == head;
    body := out.Done();
  }
}
