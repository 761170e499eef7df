/**
 `cv1`, the canonical form of a dynamic value: one tag byte, then data of explicit length, with the
 keys of an object in the order of their UTF-8 bytes.
 */
module CanonicalValue {
  import opened Wrappers
  import opened Bytes

  /** Texts and keys are their UTF-8 bytes; a number is the bit pattern of a 64-bit float. */
  datatype Value =
    | Absent
    | Boolean(flag: bool)
    | Integer(whole: int64)
    | Number(bits: bits64)
    | Text(text: bytes)
    | Blob(blob: bytes)
    | List(values: seq<Value>)
    | Object(fields: map<bytes, Value>)
    | Artifact

  const NEGATIVE_ZERO: bits64 := 0x8000_0000_0000_0000

  /** Neither infinite nor NaN: the exponent field of IEEE 754 binary64 is not all ones. */
  predicate Finite(bits: bits64) {
    bits / 0x10_0000_0000_0000 % 0x800 != 0x7FF
  }

  function WithoutSignOfZero(bits: bits64): bits64 {
    if bits == NEGATIVE_ZERO then 0 else bits
  }

  // ----- Encoding -----

  /** Some arrangement of a finite set. */
  ghost function Enumerate(keys: set<bytes>): (s: seq<bytes>)
    ensures multiset(s) == multiset(keys)
  {
    if keys == {} then []
    else
      var k :| k in keys;
      assert keys == {k} + (keys - {k});
      [k] + Enumerate(keys - {k})
  }

  ghost function Ordered(keys: set<bytes>): (s: seq<bytes>)
    ensures Sorted(s) && multiset(s) == multiset(keys)
    ensures forall k :: k in s <==> k in keys
    ensures |s| == |keys|
  {
    var s := Sort(Enumerate(keys));
    SortSorts(Enumerate(keys));
    assert forall k :: k in s <==> k in multiset(s);
    assert |multiset(s)| == |s|;
    s
  }

  function Prefixed(p: bytes, r: Option<bytes>): Option<bytes> {
    match r
    case None => None
    case Some(b) => Some(p + b)
  }

  /** The canonical bytes of `v`; `None` for a non-finite number or an artifact anywhere in it. */
  ghost function Encode(v: Value): Option<bytes>
    decreases v, 1
  {
    match v
    case Absent => Some([0x00])
    case Boolean(b) => Some([0x01, if b then 1 else 0])
    case Integer(i) => Some([0x02] + U64(ToBits(i)))
    case Number(n) => if Finite(n) then Some([0x03] + U64(WithoutSignOfZero(n))) else None
    case Text(s) => Some([0x04] + PushBytes(s))
    case Blob(b) => Some([0x05] + PushBytes(b))
    case List(vs) => Prefixed([0x06] + PushLen(|vs|), EncodeItems(vs))
    case Object(fields) => Prefixed([0x07] + PushLen(|fields|), EncodeFields(v, Ordered(fields.Keys)))
    case Artifact => None
  }

  ghost function EncodeItems(vs: seq<Value>): Option<bytes>
    decreases vs, 0
  {
    if vs == [] then Some([])
    else
      match Encode(vs[0])
      case None => None
      case Some(a) => Prefixed(a, EncodeItems(vs[1..]))
  }

  ghost function EncodeFields(v: Value, keys: seq<bytes>): Option<bytes>
    requires v.Object? && forall k :: k in keys ==> k in v.fields
    decreases v, 0, |keys|
  {
    if keys == [] then Some([])
    else
      match Encode(v.fields[keys[0]])
      case None => None
      case Some(a) => Prefixed(PushBytes(keys[0]) + a, EncodeFields(v, keys[1..]))
  }

  // ----- The imperative encoder -----

  /** The keys of a hash map, in whatever order iterating over it gives. */
  method CollectKeys(fields: map<bytes, Value>) returns (keys: seq<bytes>)
    ensures multiset(keys) == multiset(fields.Keys)
  {
    keys := [];
    var rest := fields.Keys;
    while rest != {}
      invariant rest <= fields.Keys
      invariant multiset(keys) == multiset(fields.Keys - rest)
    {
      var k :| k in rest;
      assert fields.Keys - (rest - {k}) == fields.Keys - rest + {k};
      keys := keys + [k];
      rest := rest - {k};
    }
    assert fields.Keys - rest == fields.Keys;
  }

  method SortedKeys(fields: map<bytes, Value>) returns (keys: seq<bytes>)
    ensures keys == Ordered(fields.Keys)
  {
    var collected := CollectKeys(fields);
    keys := Sort(collected);
    SortSorts(collected);
    SortedUnique(keys, Ordered(fields.Keys));
  }

  lemma PrefixedTwice(p: bytes, q: bytes, r: Option<bytes>)
    ensures Prefixed(p, Prefixed(q, r)) == Prefixed(p + q, r)
  {
    if r.Some? {
      assert p + (q + r.value) == p + q + r.value;
    }
  }

  lemma PrefixedEmpty(r: Option<bytes>)
    ensures Prefixed([], r) == r
  {
    if r.Some? {
      assert [] + r.value == r.value;
    }
  }

  lemma AppendFramed(start: bytes, tag: bytes, len: bytes, body: bytes)
    ensures start + tag + len + body == start + (tag + len + body)
  {
  }

  /** Append the canonical bytes of `value`, or report that it has none. */
  method EncodeValue(value: Value, out: Buffer) returns (ok: bool)
    modifies out
    ensures ok <==> Encode(value).Some?
    ensures ok ==> out.data == old(out.data) + Encode(value).value
    decreases value, 1
  {
    ghost var start := out.data;
    if value.List? {
      EncodeList(value);
      out.Push(0x06);
      WriteLen(out, |value.values|);
      ok := EncodeEach(value.values, out);
      if ok {
        AppendFramed(start, [0x06], PushLen(|value.values|), EncodeItems(value.values).value);
      }
    } else if value.Object? {
      EncodeObject(value);
      out.Push(0x07);
      var keys := SortedKeys(value.fields);
      WriteLen(out, |keys|);
      ok := EncodeEntries(value, keys, out);
      if ok {
        AppendFramed(start, [0x07], PushLen(|keys|), EncodeFields(value, keys).value);
      }
    } else {
      ok := EncodeScalar(value, out);
    }
  }

  lemma EncodeList(v: Value)
    requires v.List?
    ensures Encode(v) == Prefixed([0x06] + PushLen(|v.values|), EncodeItems(v.values))
  {
  }

  lemma EncodeObject(v: Value)
    requires v.Object?
    ensures Encode(v) == Prefixed([0x07] + PushLen(|v.fields|), EncodeFields(v, Ordered(v.fields.Keys)))
  {
  }

  method EncodeScalar(value: Value, out: Buffer) returns (ok: bool)
    requires !value.List? && !value.Object?
    modifies out
    ensures ok <==> Encode(value).Some?
    ensures ok ==> out.data == old(out.data) + Encode(value).value
  {
    ok := true;
    match value
    case Absent =>
      out.Push(0x00);
    case Boolean(b) =>
      out.Push(0x01);
      out.Push(if b then 1 else 0);
    case Integer(i) =>
      out.Push(0x02);
      out.Extend(U64(ToBits(i)));
    case Number(n) =>
      if !Finite(n) {
        return false;
      }
      out.Push(0x03);
      out.Extend(U64(WithoutSignOfZero(n)));
    case Text(s) =>
      out.Push(0x04);
      WriteBytes(out, s);
    case Blob(b) =>
      out.Push(0x05);
      WriteBytes(out, b);
    case Artifact =>
      return false;
  }

  lemma EncodeItemsStep(vs: seq<Value>, i: nat, body: bytes)
    requires i < |vs|
    ensures Prefixed(body, EncodeItems(vs[i..]))
            == (match Encode(vs[i])
                case None => None
                case Some(a) => Prefixed(body + a, EncodeItems(vs[i + 1..])))
  {
    assert vs[i..][0] == vs[i] && vs[i..][1..] == vs[i + 1..];
    if Encode(vs[i]).Some? {
      PrefixedTwice(body, Encode(vs[i]).value, EncodeItems(vs[i + 1..]));
    }
  }

  method EncodeEach(values: seq<Value>, out: Buffer) returns (ok: bool)
    modifies out
    ensures ok <==> EncodeItems(values).Some?
    ensures ok ==> out.data == old(out.data) + EncodeItems(values).value
    decreases values
  {
    hide Encode;
    ghost var body := [];
    PrefixedEmpty(EncodeItems(values));
    assert values[0..] == values;
    for i := 0 to |values|
      invariant out.data == old(out.data) + body
      invariant EncodeItems(values) == Prefixed(body, EncodeItems(values[i..]))
    {
      EncodeItemsStep(values, i, body);
      var done := EncodeValue(values[i], out);
      if !done {
        return false;
      }
      body := body + Encode(values[i]).value;
    }
    assert values[|values|..] == [] && body + [] == body;
    return true;
  }

  lemma EncodeFieldsStep(v: Value, keys: seq<bytes>, i: nat, body: bytes)
    requires v.Object? && i < |keys| && forall k :: k in keys ==> k in v.fields
    ensures Prefixed(body, EncodeFields(v, keys[i..]))
            == (match Encode(v.fields[keys[i]])
                case None => None
                case Some(a) => Prefixed(body + (PushBytes(keys[i]) + a), EncodeFields(v, keys[i + 1..])))
  {
    assert keys[i..][0] == keys[i] && keys[i..][1..] == keys[i + 1..];
    if Encode(v.fields[keys[i]]).Some? {
      PrefixedTwice(body, PushBytes(keys[i]) + Encode(v.fields[keys[i]]).value, EncodeFields(v, keys[i + 1..]));
    }
  }

  method EncodeEntries(value: Value, keys: seq<bytes>, out: Buffer) returns (ok: bool)
    requires value.Object? && forall k :: k in keys ==> k in value.fields
    modifies out
    ensures ok <==> EncodeFields(value, keys).Some?
    ensures ok ==> out.data == old(out.data) + EncodeFields(value, keys).value
    decreases value, 0
  {
    hide Encode;
    ghost var body := [];
    PrefixedEmpty(EncodeFields(value, keys));
    assert keys[0..] == keys;
    for i := 0 to |keys|
      invariant out.data == old(out.data) + body
      invariant EncodeFields(value, keys) == Prefixed(body, EncodeFields(value, keys[i..]))
    {
      var key := keys[i];
      EncodeFieldsStep(value, keys, i, body);
      WriteBytes(out, key);
      var done := EncodeValue(value.fields[key], out);
      if !done {
        return false;
      }
      body := body + (PushBytes(key) + Encode(value.fields[key]).value);
    }
    assert keys[|keys|..] == [] && body + [] == body;
    return true;
  }

  // ----- Decoding -----

  /** Reads one canonical value and returns what follows it; anything not canonical is refused. */
  function Decode(s: bytes): (r: Option<(Value, bytes)>)
    ensures r.Some? ==> |r.value.1| < |s|
    decreases |s|, 0
  {
    if s == [] then None
    else if s[0] == 0x00 then Some((Absent, s[1..]))
    else if s[0] == 0x01 then
      if |s| >= 2 && s[1] <= 1 then Some((Boolean(s[1] == 1), s[2..])) else None
    else if s[0] == 0x02 then
      if |s| >= 9 then Some((Integer(FromBits(ReadU64(s[1..]))), s[9..])) else None
    else if s[0] == 0x03 then
      if |s| >= 9 && Finite(ReadU64(s[1..])) && ReadU64(s[1..]) != NEGATIVE_ZERO
      then Some((Number(ReadU64(s[1..])), s[9..])) else None
    else if s[0] == 0x04 then
      (match TakeBytes(s[1..]) case None => None case Some((b, rest)) => Some((Text(b), rest)))
    else if s[0] == 0x05 then
      (match TakeBytes(s[1..]) case None => None case Some((b, rest)) => Some((Blob(b), rest)))
    else if s[0] == 0x06 && |s| >= 5 then
      (match DecodeItems(ReadU32(s[1..]), s[5..])
       case None => None
       case Some((vs, rest)) => Some((List(vs), rest)))
    else if s[0] == 0x07 && |s| >= 5 then
      (match DecodeFields(ReadU32(s[1..]), s[5..], None)
       case None => None
       case Some((fields, rest)) => Some((Object(fields), rest)))
    else None
  }

  function DecodeItems(n: nat, s: bytes): (r: Option<(seq<Value>, bytes)>)
    ensures r.Some? ==> |r.value.1| <= |s|
    decreases |s|, 1
  {
    if n == 0 then Some(([], s))
    else
      match Decode(s)
      case None => None
      case Some((v, s2)) =>
        match DecodeItems(n - 1, s2)
        case None => None
        case Some((vs, rest)) => Some(([v] + vs, rest))
  }

  predicate Above(floor: Option<bytes>, key: bytes) {
    floor.Some? ==> Less(floor.value, key)
  }

  /** `n` keys with their values, each key above the one before it. */
  function DecodeFields(n: nat, s: bytes, floor: Option<bytes>): (r: Option<(map<bytes, Value>, bytes)>)
    ensures r.Some? ==> |r.value.1| <= |s|
    decreases |s|, 1
  {
    if n == 0 then Some((map[], s))
    else
      match TakeBytes(s)
      case None => None
      case Some((key, s2)) =>
        if !Above(floor, key) then None
        else
          match Decode(s2)
          case None => None
          case Some((v, s3)) =>
            match DecodeFields(n - 1, s3, Some(key))
            case None => None
            case Some((fields, rest)) => Some((fields[key := v], rest))
  }

  // ----- What the encoding identifies -----

  /** The value with every negative zero made positive: all the encoding forgets. */
  function Norm(v: Value): Value
    decreases v, 1
  {
    match v
    case Number(n) => Number(WithoutSignOfZero(n))
    case List(vs) => List(NormItems(vs))
    case Object(fields) => Object(map k | k in fields :: Norm(fields[k]))
    case _ => v
  }

  function NormItems(vs: seq<Value>): (r: seq<Value>)
    ensures |r| == |vs|
    decreases vs, 0
  {
    if vs == [] then [] else [Norm(vs[0])] + NormItems(vs[1..])
  }

  /** Every length in `v` fits the 32 bits it is written in. */
  ghost predicate Fits(v: Value)
    decreases v, 1
  {
    match v
    case Text(s) => |s| < TWO_32
    case Blob(b) => |b| < TWO_32
    case List(vs) => |vs| < TWO_32 && FitsItems(vs)
    case Object(fields) => |fields| < TWO_32 && forall k :: k in fields ==> |k| < TWO_32 && Fits(fields[k])
    case _ => true
  }

  ghost predicate FitsItems(vs: seq<Value>)
    decreases vs, 0
  {
    vs == [] || (Fits(vs[0]) && FitsItems(vs[1..]))
  }

  // ----- Decoding undoes encoding -----

  lemma TaggedString(tag: byte, b: bytes, rest: bytes)
    requires |b| < TWO_32
    ensures var s := [tag] + PushBytes(b) + rest; s[0] == tag && TakeBytes(s[1..]) == Some((b, rest))
  {
    var s := [tag] + PushBytes(b) + rest;
    assert s[1..] == PushBytes(b) + rest;
    TakePushed(b, rest);
  }

  lemma TaggedWord(tag: byte, n: bits64, rest: bytes)
    ensures var s := [tag] + U64(n) + rest;
            |s| >= 9 && s[0] == tag && ReadU64(s[1..]) == n && s[9..] == rest
  {
    var s := [tag] + U64(n) + rest;
    assert s[1..] == U64(n) + rest;
    ReadU64OfU64(n, rest);
  }

  lemma TaggedLength(tag: byte, n: nat, body: bytes, rest: bytes)
    requires n < TWO_32
    ensures var s := [tag] + PushLen(n) + body + rest;
            |s| >= 5 && s[0] == tag && ReadU32(s[1..]) == n && s[5..] == body + rest
  {
    var s := [tag] + PushLen(n) + body + rest;
    assert s[1..] == U32(n) + (body + rest);
    ReadU32OfU32(n, body + rest);
  }

  lemma DecodeTagged(n: nat, body: bytes, rest: bytes)
    requires n < TWO_32
    ensures Decode([0x06] + PushLen(n) + body + rest)
            == (match DecodeItems(n, body + rest)
                case None => None
                case Some((vs, rest2)) => Some((List(vs), rest2)))
    ensures Decode([0x07] + PushLen(n) + body + rest)
            == (match DecodeFields(n, body + rest, None)
                case None => None
                case Some((fields, rest2)) => Some((Object(fields), rest2)))
  {
    TaggedLength(0x06, n, body, rest);
    TaggedLength(0x07, n, body, rest);
  }

  lemma DecodeEncodeScalar(v: Value, rest: bytes)
    requires Encode(v).Some? && Fits(v) && !v.List? && !v.Object?
    ensures Decode(Encode(v).value + rest) == Some((Norm(v), rest))
  {
    match v
    case Absent =>
      assert ([0x00] + rest)[1..] == rest;
    case Boolean(b) =>
      assert ([0x01, if b then 1 else 0] + rest)[2..] == rest;
    case Integer(i) => TaggedWord(0x02, ToBits(i), rest);
    case Number(n) => TaggedWord(0x03, WithoutSignOfZero(n), rest);
    case Text(t) => TaggedString(0x04, t, rest);
    case Blob(b) => TaggedString(0x05, b, rest);
  }

  lemma {:induction false} DecodeEncode(v: Value, rest: bytes)
    requires Encode(v).Some? && Fits(v)
    ensures Decode(Encode(v).value + rest) == Some((Norm(v), rest))
    decreases v, 1
  {
    if v.List? {
      EncodeList(v);
      DecodeTagged(|v.values|, EncodeItems(v.values).value, rest);
      DecodeEncodeItems(v.values, rest);
    } else if v.Object? {
      EncodeObject(v);
      DecodeTagged(|v.fields|, EncodeFields(v, Ordered(v.fields.Keys)).value, rest);
      DecodeEncodeObject(v, rest);
    } else {
      DecodeEncodeScalar(v, rest);
    }
  }

  lemma {:induction false} DecodeEncodeObject(v: Value, rest: bytes)
    requires v.Object? && Encode(v).Some? && Fits(v)
    ensures var body := EncodeFields(v, Ordered(v.fields.Keys)).value;
            DecodeFields(|v.fields|, body + rest, None) == Some((Norm(v).fields, rest))
    decreases v, 1, 0
  {
    var keys := Ordered(v.fields.Keys);
    StrictlySorted(v.fields.Keys);
    DecodeEncodeFields(v, keys, None, rest);
    assert NormAt(v, keys) == Norm(v).fields;
  }

  /** The normalised fields of an object at the given keys. */
  ghost function NormAt(v: Value, keys: seq<bytes>): map<bytes, Value>
    requires v.Object? && forall k :: k in keys ==> k in v.fields
  {
    map k | k in keys :: Norm(v.fields[k])
  }

  lemma {:induction false} DecodeEncodeItems(vs: seq<Value>, rest: bytes)
    requires EncodeItems(vs).Some? && FitsItems(vs)
    ensures DecodeItems(|vs|, EncodeItems(vs).value + rest) == Some((NormItems(vs), rest))
    decreases vs, 0
  {
    if vs == [] {
      assert [] + rest == rest;
    } else {
      Concat(Encode(vs[0]).value, EncodeItems(vs[1..]).value, rest);
      DecodeEncode(vs[0], EncodeItems(vs[1..]).value + rest);
      DecodeEncodeItems(vs[1..], rest);
    }
  }

  ghost predicate Ascending(floor: Option<bytes>, keys: seq<bytes>) {
    (forall i :: 0 <= i < |keys| ==> Above(floor, keys[i])) &&
    forall i, j :: 0 <= i < j < |keys| ==> Less(keys[i], keys[j])
  }

  lemma StrictlySorted(keys: set<bytes>)
    ensures Ascending(None, Ordered(keys))
  {
    var s := Ordered(keys);
    forall i, j | 0 <= i < j < |s| ensures s[i] != s[j] {
      RepeatCounted(s, i, j);
    }
  }

  lemma RepeatCounted(s: seq<bytes>, i: nat, j: nat)
    requires i < j < |s|
    ensures s[i] == s[j] ==> multiset(s)[s[i]] >= 2
  {
    assert s == s[..i] + [s[i]] + s[i + 1..j] + [s[j]] + s[j + 1..];
  }

  lemma AscendingTail(floor: Option<bytes>, keys: seq<bytes>)
    requires keys != [] && Ascending(floor, keys)
    ensures Above(floor, keys[0]) && Ascending(Some(keys[0]), keys[1..])
  {
  }

  lemma NormAtStep(v: Value, keys: seq<bytes>)
    requires v.Object? && keys != [] && forall k :: k in keys ==> k in v.fields
    ensures NormAt(v, keys) == NormAt(v, keys[1..])[keys[0] := Norm(v.fields[keys[0]])]
  {
    assert keys == [keys[0]] + keys[1..];
  }

  lemma DecodeOneField(n: nat, key: bytes, a: bytes, tail: bytes, floor: Option<bytes>)
    requires |key| < TWO_32 && Above(floor, key) && Decode(a + tail).Some? && Decode(a + tail).value.1 == tail
    ensures DecodeFields(n + 1, PushBytes(key) + a + tail, floor)
            == (match DecodeFields(n, tail, Some(key))
                case None => None
                case Some((fields, rest)) => Some((fields[key := Decode(a + tail).value.0], rest)))
  {
    Concat(PushBytes(key), a, tail);
    TakePushed(key, a + tail);
  }

  lemma {:induction false} DecodeEncodeFields(v: Value, keys: seq<bytes>, floor: Option<bytes>, rest: bytes)
    requires v.Object? && Fits(v) && forall k :: k in keys ==> k in v.fields
    requires EncodeFields(v, keys).Some? && Ascending(floor, keys)
    ensures DecodeFields(|keys|, EncodeFields(v, keys).value + rest, floor)
            == Some((NormAt(v, keys), rest))
    decreases v, 0, |keys|
  {
    if keys == [] {
      assert [] + rest == rest;
      assert NormAt(v, keys) == map[];
    } else {
      var key := keys[0];
      var a, b := Encode(v.fields[key]).value, EncodeFields(v, keys[1..]).value;
      DecodeEncode(v.fields[key], b + rest);
      Concat(PushBytes(key) + a, b, rest);
      DecodeOneField(|keys| - 1, key, a, b + rest, floor);
      AscendingTail(floor, keys);
      DecodeEncodeFields(v, keys[1..], Some(key), rest);
      NormAtStep(v, keys);
    }
  }

  // ----- Encoding undoes decoding -----

  /** `v` is a value in normal form whose canonical bytes, followed by `rest`, are `s`. */
  ghost predicate Canonical(s: bytes, v: Value, rest: bytes) {
    Encode(v).Some? && Fits(v) && Norm(v) == v && s == Encode(v).value + rest
  }

  lemma {:induction false} EncodeDecodeScalar(s: bytes)
    requires Decode(s).Some? && s[0] < 0x06
    ensures Canonical(s, Decode(s).value.0, Decode(s).value.1)
  {
    var (v, rest) := Decode(s).value;
    assert s == [s[0]] + s[1..];
    match v
    case Absent =>
    case Boolean(_) =>
      assert s == [s[0], s[1]] + s[2..];
    case Integer(_) =>
      U64OfReadU64(s[1..]);
      assert s[1..][..8] + s[9..] == s[1..];
    case Number(_) =>
      U64OfReadU64(s[1..]);
      assert s[1..][..8] + s[9..] == s[1..];
    case Text(_) => PushTaken(s[1..]);
    case Blob(_) => PushTaken(s[1..]);
  }

  lemma LengthSplit(s: bytes)
    requires |s| >= 5
    ensures ReadU32(s[1..]) < TWO_32
    ensures s == [s[0]] + PushLen(ReadU32(s[1..])) + s[5..]
  {
    ReadU32Bound(s[1..]);
    assert s == [s[0]] + s[1..][..4] + s[5..];
  }

  lemma {:induction false} EncodeDecode(s: bytes)
    requires Decode(s).Some?
    ensures Canonical(s, Decode(s).value.0, Decode(s).value.1)
    decreases |s|, 0
  {
    if s[0] < 0x06 {
      EncodeDecodeScalar(s);
    } else {
      LengthSplit(s);
      var (v, rest) := Decode(s).value;
      if s[0] == 0x06 {
        EncodeDecodeItems(ReadU32(s[1..]), s[5..]);
        EncodeList(v);
      } else {
        EncodeDecodeObject(ReadU32(s[1..]), s[5..]);
        EncodeObject(v);
      }
    }
  }

  lemma EncodeItemsCons(v: Value, vs: seq<Value>)
    requires Encode(v).Some?
    ensures EncodeItems([v] + vs) == Prefixed(Encode(v).value, EncodeItems(vs))
    ensures FitsItems([v] + vs) <==> Fits(v) && FitsItems(vs)
    ensures NormItems([v] + vs) == [Norm(v)] + NormItems(vs)
  {
    assert ([v] + vs)[1..] == vs;
  }

  lemma {:induction false} EncodeDecodeItems(n: nat, s: bytes)
    requires DecodeItems(n, s).Some?
    ensures var (vs, rest) := DecodeItems(n, s).value;
            && |vs| == n && EncodeItems(vs).Some? && FitsItems(vs) && NormItems(vs) == vs
            && s == EncodeItems(vs).value + rest
    decreases |s|, 1
  {
    if n == 0 {
      assert [] + s == s;
    } else {
      EncodeDecode(s);
      var (v, s2) := Decode(s).value;
      EncodeDecodeItems(n - 1, s2);
      var (vs, rest) := DecodeItems(n - 1, s2).value;
      EncodeItemsCons(v, vs);
      Concat(Encode(v).value, EncodeItems(vs).value, rest);
    }
  }

  lemma {:induction false} EncodeDecodeObject(n: nat, s: bytes)
    requires DecodeFields(n, s, None).Some? && n < TWO_32
    ensures var (fields, rest) := DecodeFields(n, s, None).value;
            var v := Object(fields);
            var body := EncodeFields(v, Ordered(fields.Keys));
            |fields| == n && Fits(v) && Norm(v) == v && body.Some? && s == body.value + rest
    decreases |s|, 2
  {
    var (fields, rest) := DecodeFields(n, s, None).value;
    var keys := EncodeDecodeFields(n, s, None);
    AscendingIsOrdered(keys, fields.Keys);
    assert |fields| == |fields.Keys|;
    NormFixed(fields);
  }

  lemma NormFixed(fields: map<bytes, Value>)
    requires forall k :: k in fields ==> Norm(fields[k]) == fields[k]
    ensures Norm(Object(fields)) == Object(fields)
  {
    assert Norm(Object(fields)).fields == fields;
  }

  lemma AscendingIsOrdered(keys: seq<bytes>, all: set<bytes>)
    requires Ascending(None, keys) && forall k :: k in keys <==> k in all
    ensures keys == Ordered(all)
  {
    forall i, j | 0 <= i < j < |keys| ensures Leq(keys[i], keys[j]) {
      assert Less(keys[i], keys[j]);
    }
    DistinctCount(keys, all);
    SortedUnique(keys, Ordered(all));
  }

  lemma {:induction false} DistinctCount(keys: seq<bytes>, all: set<bytes>)
    requires forall i, j :: 0 <= i < j < |keys| ==> keys[i] != keys[j]
    requires forall k :: k in keys <==> k in all
    ensures multiset(keys) == multiset(all)
  {
    if keys == [] {
      assert all == {};
    } else {
      assert keys == [keys[0]] + keys[1..];
      DistinctCount(keys[1..], all - {keys[0]});
      assert all == {keys[0]} + (all - {keys[0]});
    }
  }

  /** `fields` are in normal form and, written in the order of `keys`, give `s` when `rest` follows. */
  ghost predicate ReadBack(s: bytes, floor: Option<bytes>, fields: map<bytes, Value>, rest: bytes, keys: seq<bytes>) {
    && Ascending(floor, keys) && (forall k :: k in keys <==> k in fields)
    && FieldsNormal(fields)
    && Written(s, fields, keys, rest)
  }

  ghost predicate FieldsNormal(fields: map<bytes, Value>) {
    forall k :: k in fields ==> |k| < TWO_32 && Fits(fields[k]) && Norm(fields[k]) == fields[k]
  }

  ghost predicate Written(s: bytes, fields: map<bytes, Value>, keys: seq<bytes>, rest: bytes)
    requires forall k :: k in keys ==> k in fields
  {
    EncodeFields(Object(fields), keys).Some? && s == EncodeFields(Object(fields), keys).value + rest
  }

  lemma {:induction false} EncodeDecodeFields(n: nat, s: bytes, floor: Option<bytes>) returns (keys: seq<bytes>)
    requires DecodeFields(n, s, floor).Some?
    ensures |keys| == n
    ensures ReadBack(s, floor, DecodeFields(n, s, floor).value.0, DecodeFields(n, s, floor).value.1, keys)
    decreases |s|, 1
  {
    if n == 0 {
      keys := [];
      ReadBackNone(s, floor);
    } else {
      var (key, s2) := TakeBytes(s).value;
      var (v, s3) := Decode(s2).value;
      var (fields, rest) := DecodeFields(n - 1, s3, Some(key)).value;
      assert DecodeFields(n, s, floor).value == (fields[key := v], rest);
      var tail := EncodeDecodeFields(n - 1, s3, Some(key));
      keys := [key] + tail;
      assert ReadBack(s, floor, fields[key := v], rest, keys) by {
        PushTaken(s);
        EncodeDecode(s2);
        ReadBackStep(s, s2, s3, floor, key, v, fields, rest, tail);
      }
    }
  }

  lemma ReadBackNone(s: bytes, floor: Option<bytes>)
    ensures ReadBack(s, floor, map[], s, [])
  {
    assert [] + s == s;
  }

  lemma ReadBackStep(s: bytes, s2: bytes, s3: bytes, floor: Option<bytes>, key: bytes, v: Value,
                     fields: map<bytes, Value>, rest: bytes, tail: seq<bytes>)
    requires |key| < TWO_32 && Above(floor, key) && s == PushBytes(key) + s2
    requires Canonical(s2, v, s3) && ReadBack(s3, Some(key), fields, rest, tail)
    ensures ReadBack(s, floor, fields[key := v], rest, [key] + tail)
  {
    AscendingCons(floor, key, tail);
    WrittenStep(s, s2, s3, key, v, fields, rest, tail);
    FieldsNormalStep(key, v, fields);
  }

  lemma FieldsNormalStep(key: bytes, v: Value, fields: map<bytes, Value>)
    requires FieldsNormal(fields) && |key| < TWO_32 && Fits(v) && Norm(v) == v
    ensures FieldsNormal(fields[key := v])
  {
  }

  lemma WrittenStep(s: bytes, s2: bytes, s3: bytes, key: bytes, v: Value,
                    fields: map<bytes, Value>, rest: bytes, tail: seq<bytes>)
    requires s == PushBytes(key) + s2 && Canonical(s2, v, s3) && key !in tail
    requires (forall k :: k in tail ==> k in fields) && Written(s3, fields, tail, rest)
    ensures Written(s, fields[key := v], [key] + tail, rest)
  {
    var all := Object(fields[key := v]);
    EncodeFieldsLocal(all, Object(fields), tail);
    EncodeFieldsCons(all, key, tail);
    Concat(Encode(v).value, EncodeFields(all, tail).value, rest);
    Concat(PushBytes(key), Encode(v).value, EncodeFields(all, tail).value + rest);
    Concat(PushBytes(key) + Encode(v).value, EncodeFields(all, tail).value, rest);
  }

  lemma EncodeFieldsCons(v: Value, key: bytes, tail: seq<bytes>)
    requires v.Object? && key in v.fields && forall k :: k in tail ==> k in v.fields
    requires Encode(v.fields[key]).Some?
    ensures EncodeFields(v, [key] + tail)
            == Prefixed(PushBytes(key) + Encode(v.fields[key]).value, EncodeFields(v, tail))
  {
    assert ([key] + tail)[1..] == tail;
  }

  lemma AscendingCons(floor: Option<bytes>, key: bytes, tail: seq<bytes>)
    requires Above(floor, key) && Ascending(Some(key), tail)
    ensures Ascending(floor, [key] + tail) && key !in tail
  {
    forall i | 0 <= i < |tail| ensures Above(floor, tail[i]) {
      if floor.Some? {
        LeqTransitive(floor.value, key, tail[i]);
        if floor.value == tail[i] {
          LeqAntisymmetric(key, tail[i]);
        }
      }
    }
  }

  lemma {:induction false} EncodeFieldsLocal(v: Value, w: Value, keys: seq<bytes>)
    requires v.Object? && w.Object?
    requires forall k :: k in keys ==> k in v.fields && k in w.fields && v.fields[k] == w.fields[k]
    ensures EncodeFields(v, keys) == EncodeFields(w, keys)
    decreases |keys|
  {
    if keys != [] {
      EncodeFieldsLocal(v, w, keys[1..]);
    }
  }

  // ----- Main results -----

  /** The decoder accepts exactly the encodings of values in normal form, whatever follows them. */
  lemma DecodesExactlyEncodings(s: bytes, v: Value, rest: bytes)
    ensures Decode(s) == Some((v, rest)) <==> Canonical(s, v, rest)
  {
    if Decode(s) == Some((v, rest)) {
      EncodeDecode(s);
    }
    if Canonical(s, v, rest) {
      DecodeEncode(v, rest);
    }
  }

  /** Normalising keeps the bytes. */
  lemma EncodeNorm(v: Value)
    requires Encode(v).Some? && Fits(v)
    ensures Encode(Norm(v)) == Encode(v)
  {
    var s := Encode(v).value;
    assert s + [] == s;
    DecodeEncode(v, []);
    EncodeDecode(s);
    assert Encode(Norm(v)).value + [] == Encode(Norm(v)).value;
  }

  /** The code is self-delimiting, and two values share their bytes exactly when they are equal up to
      the sign of zero. Map order cannot matter: an object is its fields. */
  lemma EncodingIdentifies(v: Value, w: Value, r: bytes, s: bytes)
    requires Encode(v).Some? && Fits(v) && Encode(w).Some? && Fits(w)
    ensures Encode(v).value + r == Encode(w).value + s <==> Norm(v) == Norm(w) && r == s
  {
    DecodeEncode(v, r);
    DecodeEncode(w, s);
    EncodeNorm(v);
    EncodeNorm(w);
  }

  /** A value has canonical bytes exactly when it holds no artifact and no infinite or NaN number. */
  ghost predicate Canonizable(v: Value)
    decreases v, 1
  {
    match v
    case Number(n) => Finite(n)
    case List(vs) => forall i :: 0 <= i < |vs| ==> Canonizable(vs[i])
    case Object(fields) => forall k :: k in fields ==> Canonizable(fields[k])
    case Artifact => false
    case _ => true
  }

  lemma {:induction false} EncodesCanonizable(v: Value)
    ensures Encode(v).Some? <==> Canonizable(v)
    decreases v, 1
  {
    if v.List? {
      EncodesItems(v.values);
    } else if v.Object? {
      EncodesFields(v, Ordered(v.fields.Keys));
    }
  }

  lemma {:induction false} EncodesItems(vs: seq<Value>)
    ensures EncodeItems(vs).Some? <==> forall i :: 0 <= i < |vs| ==> Canonizable(vs[i])
    decreases vs, 0
  {
    if vs != [] {
      EncodesCanonizable(vs[0]);
      EncodesItems(vs[1..]);
      assert vs == [vs[0]] + vs[1..];
    }
  }

  lemma {:induction false} EncodesFields(v: Value, keys: seq<bytes>)
    requires v.Object? && forall k :: k in keys ==> k in v.fields
    ensures EncodeFields(v, keys).Some? <==> forall k :: k in keys ==> Canonizable(v.fields[k])
    decreases v, 0, |keys|
  {
    if keys != [] {
      EncodesCanonizable(v.fields[keys[0]]);
      EncodesFields(v, keys[1..]);
      assert keys == [keys[0]] + keys[1..];
    }
  }

  lemma {:induction false} FitsNorm(v: Value)
    ensures Fits(Norm(v)) <==> Fits(v)
    decreases v, 1
  {
    match v
    case List(vs) => FitsNormItems(vs);
    case Object(fields) =>
      var normal := Norm(v).fields;
      assert normal.Keys == fields.Keys;
      assert |normal| == |normal.Keys| && |fields| == |fields.Keys|;
      forall k | k in fields ensures Fits(normal[k]) <==> Fits(fields[k]) {
        FitsNorm(fields[k]);
      }
    case _ =>
  }

  lemma {:induction false} FitsNormItems(vs: seq<Value>)
    ensures FitsItems(NormItems(vs)) <==> FitsItems(vs)
    decreases vs, 0
  {
    if vs != [] {
      FitsNorm(vs[0]);
      FitsNormItems(vs[1..]);
      assert NormItems(vs)[1..] == NormItems(vs[1..]);
    }
  }

  /** Lengths are written in 32 bits, so a value is recovered from its encoding, up to the sign of zero,
      exactly when every length in it fits them, at any depth. */
  lemma RecoveredExactly(v: Value, rest: bytes)
    requires Encode(v).Some?
    ensures Decode(Encode(v).value + rest) == Some((Norm(v), rest)) <==> Fits(v)
  {
    FitsNorm(v);
    if Fits(v) {
      DecodeEncode(v, rest);
    } else if Decode(Encode(v).value + rest) == Some((Norm(v), rest)) {
      EncodeDecode(Encode(v).value + rest);
    }
  }
}
