/**
 The digest of a batch of authorization items identifies exactly what the user is shown: the order of
 items with distinct ids, and of each item's dependencies, does not matter; everything else does.
 */
module BatchDigest {
  import opened Bytes
  import opened AuthorizationDigests
  import Decimal

  datatype Item = Item(
    itemId: bytes, payloadDigest: bytes, providerDid: bytes, capabilityId: bytes,
    dataClass: int, destination: int, retention: int, dependsOn: seq<bytes>,
    contractFingerprint: bytes, toolName: bytes, registryDigest: bytes)

  datatype Batch = Batch(authorizationId: bytes, conversationId: bytes, turnId: bytes, expiresAt: int, items: seq<Item>)

  function Text(i: int): bytes { Ascii(Decimal.OfInt(i)) }

  /** The fields of an item before and after its dependencies, in the order they are written. */
  function Front(item: Item): seq<bytes> {
    [item.itemId, item.payloadDigest, item.providerDid, item.capabilityId,
     Text(item.dataClass), Text(item.destination), Text(item.retention)]
  }

  function Back(item: Item): seq<bytes> {
    [item.contractFingerprint, item.toolName, item.registryDigest]
  }

  function ItemBytes(item: Item): bytes {
    PushAll(Front(item)) + Counted(Sort(item.dependsOn)) + PushAll(Back(item))
  }

  function ItemsBytes(items: seq<Item>): bytes {
    if items == [] then [] else ItemBytes(items[0]) + ItemsBytes(items[1..])
  }

  function Head(batch: Batch): seq<bytes> {
    [batch.authorizationId, batch.conversationId, batch.turnId, Text(batch.expiresAt)]
  }

  function Body(batch: Batch): bytes {
    PushAll(Head(batch)) + PushLen(|batch.items|) + ItemsBytes(SortItems(batch.items))
  }

  /** The bytes hashed by `batch_digest`. */
  function BatchPreimage(batch: Batch): bytes { Framed(DOMAIN_BATCH, Body(batch)) }

  // ----- The stable sort by item id -----

  function InsertItem(x: Item, s: seq<Item>): seq<Item> {
    if s == [] || Leq(x.itemId, s[0].itemId) then [x] + s else [s[0]] + InsertItem(x, s[1..])
  }

  /** What a stable sort by item id returns: items with equal ids keep their order. */
  function SortItems(s: seq<Item>): (r: seq<Item>) {
    if s == [] then [] else InsertItem(s[0], SortItems(s[1..]))
  }

  ghost predicate SortedById(s: seq<Item>) {
    forall i, j :: 0 <= i < j < |s| ==> Leq(s[i].itemId, s[j].itemId)
  }

  /** The items with a given id, in order. */
  function WithId(s: seq<Item>, id: bytes): seq<Item> {
    if s == [] then []
    else (if s[0].itemId == id then [s[0]] else []) + WithId(s[1..], id)
  }

  lemma {:induction false} InsertItemSorted(x: Item, s: seq<Item>)
    requires SortedById(s)
    ensures SortedById(InsertItem(x, s))
    ensures multiset(InsertItem(x, s)) == multiset{x} + multiset(s)
  {
    if s == [] {
    } else if Leq(x.itemId, s[0].itemId) {
      forall i | 0 <= i < |s| ensures Leq(x.itemId, s[i].itemId) {
        if i > 0 {
          LeqTransitive(x.itemId, s[0].itemId, s[i].itemId);
        }
      }
      assert multiset([x] + s) == multiset{x} + multiset(s);
    } else {
      InsertItemSorted(x, s[1..]);
      LeqTotal(x.itemId, s[0].itemId);
      var t := InsertItem(x, s[1..]);
      assert s == [s[0]] + s[1..];
      forall i | 0 <= i < |t| ensures Leq(s[0].itemId, t[i].itemId) {
        assert t[i] in multiset(t);
        assert t[i] == x || t[i] in s[1..];
      }
    }
  }

  lemma {:induction false} InsertItemStable(x: Item, s: seq<Item>, id: bytes)
    ensures WithId(InsertItem(x, s), id) == (if x.itemId == id then [x] else []) + WithId(s, id)
  {
    if s == [] {
    } else if Leq(x.itemId, s[0].itemId) {
      assert ([x] + s)[1..] == s;
    } else {
      LeqRefl(s[0].itemId);
      assert x.itemId != s[0].itemId;
      InsertItemStable(x, s[1..], id);
      hide Leq;
      var t := InsertItem(x, s[1..]);
      assert ([s[0]] + t)[1..] == t;
      if s[0].itemId == id {
        assert WithId(t, id) == [] + WithId(s[1..], id) == WithId(s[1..], id);
      }
    }
  }

  lemma {:induction false} SortItemsSorts(s: seq<Item>)
    ensures SortedById(SortItems(s)) && multiset(SortItems(s)) == multiset(s)
    ensures |SortItems(s)| == |s|
  {
    if s != [] {
      SortItemsSorts(s[1..]);
      InsertItemSorted(s[0], SortItems(s[1..]));
      assert s == [s[0]] + s[1..];
    }
    assert |multiset(s)| == |s| && |multiset(SortItems(s))| == |SortItems(s)|;
  }

  lemma {:induction false} SortItemsStable(s: seq<Item>, id: bytes)
    ensures WithId(SortItems(s), id) == WithId(s, id)
  {
    if s != [] {
      SortItemsStable(s[1..], id);
      InsertItemStable(s[0], SortItems(s[1..]), id);
    }
  }

  // ----- What an item's bytes identify -----

  /** The item with its dependencies in canonical order: what its bytes depend on. */
  function Canon(item: Item): Item { item.(dependsOn := Sort(item.dependsOn)) }

  function CanonAll(items: seq<Item>): (r: seq<Item>)
    ensures |r| == |items| && forall i :: 0 <= i < |r| ==> r[i] == Canon(items[i])
  {
    if items == [] then [] else [Canon(items[0])] + CanonAll(items[1..])
  }

  ghost predicate ItemFits(item: Item) {
    Short(Front(item)) && Short(Back(item)) && |item.dependsOn| < TWO_32 && Short(item.dependsOn)
  }

  ghost predicate BatchFits(batch: Batch) {
    Short(Head(batch)) && |batch.items| < TWO_32 && forall i :: 0 <= i < |batch.items| ==> ItemFits(batch.items[i])
  }

  lemma {:induction false} AsciiIdentifies(s: string, t: string)
    requires forall i :: 0 <= i < |s| ==> s[i] as int < 128
    requires forall i :: 0 <= i < |t| ==> t[i] as int < 128
    ensures Ascii(s) == Ascii(t) ==> s == t
  {
    if Ascii(s) == Ascii(t) {
      assert |s| == |t|;
      forall i | 0 <= i < |s| ensures s[i] == t[i] {
        assert Ascii(s)[i] == Ascii(t)[i];
      }
    }
  }

  lemma TextIdentifies(i: int, j: int)
    ensures Text(i) == Text(j) <==> i == j
  {
    AsciiIdentifies(Decimal.OfInt(i), Decimal.OfInt(j));
    Decimal.OfIntInjective(i, j);
  }

  lemma FrontBackIdentify(a: Item, b: Item)
    requires a.dependsOn == b.dependsOn
    ensures Front(a) == Front(b) && Back(a) == Back(b) <==> a == b
  {
    TextIdentifies(a.dataClass, b.dataClass);
    TextIdentifies(a.destination, b.destination);
    TextIdentifies(a.retention, b.retention);
    if Front(a) == Front(b) && Back(a) == Back(b) {
      assert Front(a)[0] == Front(b)[0] && Front(a)[1] == Front(b)[1] && Front(a)[2] == Front(b)[2]
          && Front(a)[3] == Front(b)[3] && Front(a)[4] == Front(b)[4] && Front(a)[5] == Front(b)[5]
          && Front(a)[6] == Front(b)[6];
      assert Back(a)[0] == Back(b)[0] && Back(a)[1] == Back(b)[1] && Back(a)[2] == Back(b)[2];
    }
  }

  lemma SortKeepsShort(s: seq<bytes>)
    ensures |Sort(s)| == |s| && (Short(s) ==> Short(Sort(s)))
  {
    SortSorts(s);
    assert |multiset(s)| == |s| && |multiset(Sort(s))| == |Sort(s)|;
    if Short(s) {
      forall i | 0 <= i < |Sort(s)| ensures |Sort(s)[i]| < TWO_32 {
        assert Sort(s)[i] in multiset(Sort(s));
        assert Sort(s)[i] in s;
      }
    }
  }

  lemma ThreeParts(f: seq<bytes>, d: seq<bytes>, b: seq<bytes>, f2: seq<bytes>, d2: seq<bytes>, b2: seq<bytes>,
      r: bytes, s: bytes)
    requires |f| == |f2| && Short(f) && Short(f2) && |b| == |b2| && Short(b) && Short(b2)
    requires |d| < TWO_32 && |d2| < TWO_32 && Short(d) && Short(d2)
    ensures PushAll(f) + Counted(d) + PushAll(b) + r == PushAll(f2) + Counted(d2) + PushAll(b2) + s
            <==> f == f2 && d == d2 && b == b2 && r == s
  {
    Regroup(PushAll(f), Counted(d), PushAll(b), r);
    Regroup(PushAll(f2), Counted(d2), PushAll(b2), s);
    PushAllIdentifies(f, f2, Counted(d) + (PushAll(b) + r), Counted(d2) + (PushAll(b2) + s));
    CountedIdentifies(d, d2, PushAll(b) + r, PushAll(b2) + s);
    PushAllIdentifies(b, b2, r, s);
  }

  lemma Regroup(a: bytes, b: bytes, c: bytes, d: bytes)
    ensures a + b + c + d == a + (b + (c + d))
  {
  }

  lemma ItemIdentifies(a: Item, b: Item, r: bytes, s: bytes)
    requires ItemFits(a) && ItemFits(b)
    ensures ItemBytes(a) + r == ItemBytes(b) + s <==> Canon(a) == Canon(b) && r == s
  {
    SortKeepsShort(a.dependsOn);
    SortKeepsShort(b.dependsOn);
    ThreeParts(Front(a), Sort(a.dependsOn), Back(a), Front(b), Sort(b.dependsOn), Back(b), r, s);
    assert Front(Canon(a)) == Front(a) && Back(Canon(a)) == Back(a);
    assert Front(Canon(b)) == Front(b) && Back(Canon(b)) == Back(b);
    if Sort(a.dependsOn) == Sort(b.dependsOn) {
      FrontBackIdentify(Canon(a), Canon(b));
    }
  }

  lemma {:induction false} ItemsIdentify(a: seq<Item>, b: seq<Item>, r: bytes, s: bytes)
    requires |a| == |b|
    requires forall i :: 0 <= i < |a| ==> ItemFits(a[i])
    requires forall i :: 0 <= i < |b| ==> ItemFits(b[i])
    ensures ItemsBytes(a) + r == ItemsBytes(b) + s <==> CanonAll(a) == CanonAll(b) && r == s
  {
    if a == [] {
      assert [] + r == r && [] + s == s;
    } else {
      Concat(ItemBytes(a[0]), ItemsBytes(a[1..]), r);
      Concat(ItemBytes(b[0]), ItemsBytes(b[1..]), s);
      ItemIdentifies(a[0], b[0], ItemsBytes(a[1..]) + r, ItemsBytes(b[1..]) + s);
      ItemsIdentify(a[1..], b[1..], r, s);
      assert CanonAll(a)[1..] == CanonAll(a[1..]) && CanonAll(b)[1..] == CanonAll(b[1..]);
      assert CanonAll(a) == CanonAll(b) ==> CanonAll(a)[0] == CanonAll(b)[0];
    }
  }

  // ----- Equal id by id is equal -----

  lemma {:induction false} WithIdNone(s: seq<Item>, id: bytes)
    requires forall i :: 0 <= i < |s| ==> s[i].itemId != id
    ensures WithId(s, id) == []
  {
    if s != [] {
      WithIdNone(s[1..], id);
    }
  }

  lemma {:induction false} WithIdSome(s: seq<Item>, i: nat)
    requires i < |s|
    ensures WithId(s, s[i].itemId) != []
  {
    if i > 0 {
      WithIdSome(s[1..], i - 1);
    }
  }

  /** Two sorted lists with the same items for every id, in the same order, are the same list. */
  lemma {:induction false} SortedByIdUnique(s: seq<Item>, t: seq<Item>)
    requires SortedById(s) && SortedById(t) && forall id :: WithId(s, id) == WithId(t, id)
    ensures s == t
  {
    if s == [] {
      if t != [] {
        WithIdSome(t, 0);
      }
    } else if t == [] {
      WithIdSome(s, 0);
    } else {
      FirstIds(s, t);
      FirstIds(t, s);
      LeqAntisymmetric(s[0].itemId, t[0].itemId);
      var id := s[0].itemId;
      assert WithId(s, id)[0] == s[0] && WithId(t, id)[0] == t[0];
      forall id2 ensures WithId(s[1..], id2) == WithId(t[1..], id2) {
        assert WithId(s, id2)[if s[0].itemId == id2 then 1 else 0..] == WithId(s[1..], id2);
        assert WithId(t, id2)[if s[0].itemId == id2 then 1 else 0..] == WithId(t[1..], id2);
      }
      SortedByIdUnique(s[1..], t[1..]);
      assert s == [s[0]] + s[1..] && t == [t[0]] + t[1..];
    }
  }

  lemma FirstIds(s: seq<Item>, t: seq<Item>)
    requires SortedById(t) && s != [] && t != [] && forall id :: WithId(s, id) == WithId(t, id)
    ensures Leq(t[0].itemId, s[0].itemId)
  {
    WithIdSome(s, 0);
    var id := s[0].itemId;
    if forall i :: 0 <= i < |t| ==> t[i].itemId != id {
      WithIdNone(t, id);
    } else {
      var i :| 0 <= i < |t| && t[i].itemId == id;
      LeqRefl(id);
    }
  }

  lemma {:induction false} CanonWithId(s: seq<Item>, id: bytes)
    ensures CanonAll(WithId(s, id)) == WithId(CanonAll(s), id)
  {
    if s != [] {
      CanonWithId(s[1..], id);
      assert CanonAll(s)[1..] == CanonAll(s[1..]);
      if s[0].itemId == id {
        assert WithId(s, id)[1..] == WithId(s[1..], id);
      }
    }
  }

  lemma CanonSorted(s: seq<Item>)
    requires SortedById(s)
    ensures SortedById(CanonAll(s))
  {
  }

  /** For every id, the same items in the same order, up to the order of each one's dependencies. */
  ghost predicate SameItems(a: seq<Item>, b: seq<Item>) {
    forall id :: CanonAll(WithId(a, id)) == CanonAll(WithId(b, id))
  }

  lemma SortedItemsAgree(a: seq<Item>, b: seq<Item>)
    ensures CanonAll(SortItems(a)) == CanonAll(SortItems(b)) <==> SameItems(a, b)
  {
    var s, t := SortItems(a), SortItems(b);
    forall id
      ensures WithId(CanonAll(s), id) == CanonAll(WithId(a, id)) && WithId(CanonAll(t), id) == CanonAll(WithId(b, id))
    {
      CanonWithId(s, id);
      CanonWithId(t, id);
      SortItemsStable(a, id);
      SortItemsStable(b, id);
    }
    SortItemsSorts(a);
    SortItemsSorts(b);
    CanonSorted(s);
    CanonSorted(t);
    if SameItems(a, b) {
      SortedByIdUnique(CanonAll(s), CanonAll(t));
    }
  }

  // ----- Main results -----

  ghost predicate SameHead(a: Batch, b: Batch) {
    a.authorizationId == b.authorizationId && a.conversationId == b.conversationId && a.turnId == b.turnId
    && a.expiresAt == b.expiresAt
  }

  lemma HeadIdentifies(a: Batch, b: Batch)
    ensures Head(a) == Head(b) <==> SameHead(a, b)
  {
    TextIdentifies(a.expiresAt, b.expiresAt);
    if Head(a) == Head(b) {
      assert Head(a)[0] == Head(b)[0] && Head(a)[1] == Head(b)[1] && Head(a)[2] == Head(b)[2]
          && Head(a)[3] == Head(b)[3];
    }
  }

  lemma FitsSorted(batch: Batch)
    requires BatchFits(batch)
    ensures forall i :: 0 <= i < |SortItems(batch.items)| ==> ItemFits(SortItems(batch.items)[i])
  {
    var s := SortItems(batch.items);
    SortItemsSorts(batch.items);
    forall i | 0 <= i < |s| ensures ItemFits(s[i]) {
      assert s[i] in multiset(s);
      assert s[i] in batch.items;
    }
  }

  lemma LengthThen(n: nat, m: nat, r: bytes, s: bytes)
    requires n < TWO_32 && m < TWO_32
    ensures PushLen(n) + r == PushLen(m) + s <==> n == m && r == s
  {
    ReadU32OfU32(n, r);
    ReadU32OfU32(m, s);
    assert (U32(n) + r)[4..] == r && (U32(m) + s)[4..] == s;
  }

  lemma HeadShort(batch: Batch)
    requires BatchFits(batch)
    ensures |Head(batch)| == 4 && Short(Head(batch)) && |batch.items| < TWO_32
  {
  }

  lemma BodyIdentifies(a: Batch, b: Batch)
    requires BatchFits(a) && BatchFits(b)
    ensures Body(a) == Body(b) <==> SameHead(a, b) && SameItems(a.items, b.items)
  {
    hide PushAll, PushLen, ItemsBytes, SortItems, SameItems, SortedById, ItemFits, Head, SameHead, BatchFits, Short;
    HeadShort(a);
    HeadShort(b);
    var s, t := SortItems(a.items), SortItems(b.items);
    Concat(PushAll(Head(a)), PushLen(|a.items|), ItemsBytes(s));
    Concat(PushAll(Head(b)), PushLen(|b.items|), ItemsBytes(t));
    PushAllIdentifies(Head(a), Head(b), PushLen(|a.items|) + ItemsBytes(s), PushLen(|b.items|) + ItemsBytes(t));
    HeadIdentifies(a, b);
    LengthThen(|a.items|, |b.items|, ItemsBytes(s), ItemsBytes(t));
    SortItemsSorts(a.items);
    SortItemsSorts(b.items);
    SortedItemsAgree(a.items, b.items);
    if |s| == |t| {
      FitsSorted(a);
      FitsSorted(b);
      assert ItemsBytes(s) + [] == ItemsBytes(s) && ItemsBytes(t) + [] == ItemsBytes(t);
      ItemsIdentify(s, t, [], []);
    } else {
      assert |CanonAll(s)| != |CanonAll(t)|;
    }
  }

  lemma DomainHasNoZero()
    ensures 0 !in DOMAIN_BATCH
  {
  }

  /** Two batches, with any items, are hashed alike exactly when they agree on their ids and expiry and,
      id by id, on the bound fields of their items. */
  lemma BatchIdentifies(a: Batch, b: Batch)
    requires BatchFits(a) && BatchFits(b)
    ensures BatchPreimage(a) == BatchPreimage(b) <==> SameHead(a, b) && SameItems(a.items, b.items)
  {
    DomainHasNoZero();
    FramedIdentifies(DOMAIN_BATCH, DOMAIN_BATCH, Body(a), Body(b));
    BodyIdentifies(a, b);
  }

  ghost predicate DistinctIds(items: seq<Item>) {
    forall i, j :: 0 <= i < j < |items| ==> items[i].itemId != items[j].itemId
  }

  lemma {:induction false} WithIdDistinct(s: seq<Item>, i: nat)
    requires DistinctIds(s) && i < |s|
    ensures WithId(s, s[i].itemId) == [s[i]]
  {
    if i == 0 {
      WithIdNone(s[1..], s[0].itemId);
    } else {
      assert s[0].itemId != s[i].itemId;
      WithIdDistinct(s[1..], i - 1);
    }
  }

  lemma WithIdMember(s: seq<Item>, id: bytes)
    requires DistinctIds(s)
    ensures WithId(s, id) == [] || exists i :: 0 <= i < |s| && s[i].itemId == id && WithId(s, id) == [s[i]]
  {
    if i :| 0 <= i < |s| && s[i].itemId == id {
      WithIdDistinct(s, i);
    } else {
      WithIdNone(s, id);
    }
  }

  /** Equal bound fields: everything but the order of the dependencies. */
  ghost predicate SameItem(x: Item, y: Item) {
    x.(dependsOn := []) == y.(dependsOn := []) && multiset(x.dependsOn) == multiset(y.dependsOn)
  }

  lemma SameItemCanon(x: Item, y: Item)
    ensures SameItem(x, y) <==> Canon(x) == Canon(y)
  {
    SortIgnoresOrder(x.dependsOn, y.dependsOn);
    assert x.(dependsOn := []) == Canon(x).(dependsOn := []) && y.(dependsOn := []) == Canon(y).(dependsOn := []);
    if SameItem(x, y) {
      assert Canon(x) == x.(dependsOn := []).(dependsOn := Sort(x.dependsOn));
      assert Canon(y) == y.(dependsOn := []).(dependsOn := Sort(y.dependsOn));
    }
  }

  /** Each item of `a` has its equal in `b`. */
  ghost predicate Covered(a: seq<Item>, b: seq<Item>) {
    forall i :: 0 <= i < |a| ==> HasEqual(a[i], b)
  }

  ghost predicate HasEqual(x: Item, b: seq<Item>) {
    exists j :: 0 <= j < |b| && SameItem(x, b[j])
  }

  lemma CoveredById(a: seq<Item>, b: seq<Item>, id: bytes)
    requires DistinctIds(a) && DistinctIds(b) && Covered(a, b) && WithId(a, id) != []
    ensures CanonAll(WithId(a, id)) == CanonAll(WithId(b, id))
  {
    WithIdMember(a, id);
    var i :| 0 <= i < |a| && a[i].itemId == id && WithId(a, id) == [a[i]];
    assert HasEqual(a[i], b);
    var j :| 0 <= j < |b| && SameItem(a[i], b[j]);
    assert b[j].itemId == b[j].(dependsOn := []).itemId;
    WithIdDistinct(b, j);
    SameItemCanon(a[i], b[j]);
  }

  lemma SameItemsCovered(a: seq<Item>, b: seq<Item>)
    requires DistinctIds(a) && DistinctIds(b) && SameItems(a, b)
    ensures Covered(a, b)
  {
    forall i | 0 <= i < |a| ensures HasEqual(a[i], b) {
      WithIdDistinct(a, i);
      assert CanonAll(WithId(b, a[i].itemId)) == CanonAll([a[i]]);
      WithIdMember(b, a[i].itemId);
      var j :| 0 <= j < |b| && b[j].itemId == a[i].itemId && WithId(b, a[i].itemId) == [b[j]];
      assert CanonAll([a[i]])[0] == CanonAll([b[j]])[0];
      SameItemCanon(a[i], b[j]);
    }
  }

  /** With distinct item ids, neither the order of the items nor that of any dependency list matters,
      and nothing else can change without changing what is hashed. */
  lemma DistinctBatchIdentifies(a: Batch, b: Batch)
    requires BatchFits(a) && BatchFits(b) && DistinctIds(a.items) && DistinctIds(b.items)
    ensures BatchPreimage(a) == BatchPreimage(b)
            <==> SameHead(a, b) && Covered(a.items, b.items) && Covered(b.items, a.items)
  {
    BatchIdentifies(a, b);
    if SameItems(a.items, b.items) {
      SameItemsCovered(a.items, b.items);
      SameItemsCovered(b.items, a.items);
    }
    if Covered(a.items, b.items) && Covered(b.items, a.items) {
      forall id ensures CanonAll(WithId(a.items, id)) == CanonAll(WithId(b.items, id)) {
        if WithId(a.items, id) != [] {
          CoveredById(a.items, b.items, id);
        } else if WithId(b.items, id) != [] {
          CoveredById(b.items, a.items, id);
        }
      }
    }
  }

  /** The items of one id, as far as their bytes depend on them. */
  function CanonWith(s: seq<Item>, id: bytes): seq<Item> { CanonAll(WithId(s, id)) }

  lemma {:induction false} CanonWithConcat(s: seq<Item>, t: seq<Item>, id: bytes)
    ensures CanonWith(s + t, id) == CanonWith(s, id) + CanonWith(t, id)
  {
    hide CanonWith, CanonAll, Canon, WithId;
    if s == [] {
      CanonWithNone(id);
      assert s + t == t;
    } else {
      CanonWithCons(s, id);
      CanonWithCons(s + t, id);
      assert (s + t)[0] == s[0] && (s + t)[1..] == s[1..] + t;
      CanonWithConcat(s[1..], t, id);
    }
  }

  lemma CanonWithNone(id: bytes)
    ensures CanonWith([], id) == []
  {
  }

  lemma CanonWithCons(s: seq<Item>, id: bytes)
    requires s != []
    ensures CanonWith(s, id) == (if s[0].itemId == id then [Canon(s[0])] else []) + CanonWith(s[1..], id)
  {
    var tail := WithId(s[1..], id);
    assert [] + tail == tail;
    assert s[0].itemId == id ==> ([s[0]] + tail)[1..] == tail;
  }

  lemma CanonWithOne(x: Item, id: bytes)
    ensures CanonWith([x], id) == if x.itemId == id then [Canon(x)] else []
  {
    CanonWithCons([x], id);
    assert [x][1..] == [];
  }

  lemma CanonWithParts(a: seq<Item>, x: Item, m: seq<Item>, y: Item, b: seq<Item>, id: bytes)
    ensures CanonWith(a + [x] + m + [y] + b, id)
            == CanonWith(a, id) + CanonWith([x], id) + CanonWith(m, id) + CanonWith([y], id) + CanonWith(b, id)
  {
    hide CanonWith;
    CanonWithConcat(a + [x] + m + [y], b, id);
    CanonWithConcat(a + [x] + m, [y], id);
    CanonWithConcat(a + [x], m, id);
    CanonWithConcat(a, [x], id);
  }

  function Swap(s: seq<Item>, i: nat, j: nat): seq<Item>
    requires i < j < |s|
  {
    s[i := s[j]][j := s[i]]
  }

  /** Two items with one id, anywhere in a list, can change places unnoticed exactly if they are the same item. */
  lemma SwapShows(s: seq<Item>, i: nat, j: nat)
    requires i < j < |s| && s[i].itemId == s[j].itemId
    ensures SameItems(s, Swap(s, i, j)) <==> SameItem(s[i], s[j])
  {
    hide CanonWith, SameItem;
    var a, x, m, y, b := s[..i], s[i], s[i + 1..j], s[j], s[j + 1..];
    var t := Swap(s, i, j);
    assert s == a + [x] + m + [y] + b && t == a + [y] + m + [x] + b;
    SameItemCanon(x, y);
    forall id
      ensures CanonWith(s, id) == CanonWith(a, id) + CanonWith([x], id) + CanonWith(m, id) + CanonWith([y], id)
              + CanonWith(b, id)
      ensures CanonWith(t, id) == CanonWith(a, id) + CanonWith([y], id) + CanonWith(m, id) + CanonWith([x], id)
              + CanonWith(b, id)
      ensures Canon(x) == Canon(y) ==> CanonWith([x], id) == CanonWith([y], id)
    {
      CanonWithParts(a, x, m, y, b, id);
      CanonWithParts(a, y, m, x, b, id);
      CanonWithOne(x, id);
      CanonWithOne(y, id);
    }
    forall id ensures CanonWith(s, id) == CanonAll(WithId(s, id)) && CanonWith(t, id) == CanonAll(WithId(t, id)) {
      CanonWithIs(s, id);
      CanonWithIs(t, id);
    }
    CanonWithOne(x, x.itemId);
    CanonWithOne(y, x.itemId);
    var k := |CanonWith(a, x.itemId)|;
    assert CanonWith(s, x.itemId)[k] == Canon(x) && CanonWith(t, x.itemId)[k] == Canon(y);
  }

  lemma CanonWithIs(s: seq<Item>, id: bytes)
    ensures CanonWith(s, id) == CanonAll(WithId(s, id))
  {
  }

  /** Items that share an id are told apart by their order: wherever they stand, swapping two of them
      changes the bytes unless they are the same item. */
  lemma DuplicateOrderShows(batch: Batch, i: nat, j: nat)
    requires i < j < |batch.items| && batch.items[i].itemId == batch.items[j].itemId && BatchFits(batch)
    ensures BatchPreimage(batch) == BatchPreimage(batch.(items := Swap(batch.items, i, j)))
            <==> SameItem(batch.items[i], batch.items[j])
  {
    hide BatchPreimage, SameItems, SameItem, ItemFits;
    var swapped := batch.(items := Swap(batch.items, i, j));
    assert BatchFits(swapped);
    BatchIdentifies(batch, swapped);
    SwapShows(batch.items, i, j);
  }

  // ----- Writing the body -----

  method WriteAll(out: Buffer, fields: seq<bytes>)
    modifies out
    ensures out.data == old(out.data) + PushAll(fields)
  {
    assert fields[..|fields|] == fields;
    for i := 0 to |fields|
      invariant out.data == old(out.data) + PushAll(fields[..i])
    {
      assert fields[..i + 1] == fields[..i] + [fields[i]];
      PushAllSnoc(fields[..i], fields[i]);
      Concat(old(out.data), PushAll(fields[..i]), PushBytes(fields[i]));
      WriteBytes(out, fields[i]);
    }
  }

  lemma AppendItem(start: bytes, front: bytes, len: bytes, deps: bytes, back: bytes)
    ensures start + front + len + deps + back == start + (front + (len + deps) + back)
  {
  }

  method WriteItem(out: Buffer, item: Item)
    modifies out
    ensures out.data == old(out.data) + ItemBytes(item)
  {
    ghost var start := out.data;
    WriteAll(out, Front(item));
    var deps := Sort(item.dependsOn);
    WriteLen(out, |deps|);
    WriteAll(out, deps);
    WriteAll(out, Back(item));
    AppendItem(start, PushAll(Front(item)), PushLen(|deps|), PushAll(deps), PushAll(Back(item)));
  }

  lemma {:induction false} ItemsBytesSnoc(items: seq<Item>, x: Item)
    ensures ItemsBytes(items + [x]) == ItemsBytes(items) + ItemBytes(x)
  {
    if items == [] {
      assert [] + [x] == [x] && ItemBytes(x) + [] == ItemBytes(x);
    } else {
      var all := items + [x];
      assert all[0] == items[0] && all[1..] == items[1..] + [x];
      ItemsBytesSnoc(items[1..], x);
      Concat(ItemBytes(items[0]), ItemsBytes(items[1..]), ItemBytes(x));
    }
  }

  method WriteItems(out: Buffer, items: seq<Item>)
    modifies out
    ensures out.data == old(out.data) + ItemsBytes(items)
  {
    for i := 0 to |items|
      invariant out.data == old(out.data) + ItemsBytes(items[..i])
    {
      assert items[..i + 1] == items[..i] + [items[i]];
      ItemsBytesSnoc(items[..i], items[i]);
      Concat(old(out.data), ItemsBytes(items[..i]), ItemBytes(items[i]));
      WriteItem(out, items[i]);
    }
    assert items[..|items|] == items;
  }

  /** The bytes `batch_digest` hashes, written field by field over the sorted items. */
  method BatchBody(batch: Batch) returns (body: bytes)
    ensures body == Body(batch)
  {
    var out := new Buffer();
    WriteAll(out, Head(batch));
    assert out.data == PushAll(Head(batch));
    var sorted := SortItems(batch.items);
    SortItemsSorts(batch.items);
    WriteLen(out, |sorted|);
    WriteItems(out, sorted);
    body := out.data;
  }
}
