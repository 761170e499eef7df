/**
 How the script sorts: the comparison of UTF-8 bytes by their difference, and `sort`, which promises the
 same elements in the comparator's order, equal ones as they came. Sorting so gives what the Rust sorts give.
 */
module ScriptSort {
  import opened Bytes
  import opened BatchDigest

  /** The difference of the first bytes that differ, or else of the lengths. */
  function Difference(x: bytes, y: bytes): int {
    if x == [] || y == [] then |x| - |y|
    else if x[0] != y[0] then x[0] - y[0]
    else Difference(x[1..], y[1..])
  }

  method ByteCompare(x: bytes, y: bytes) returns (d: int)
    ensures d == Difference(x, y)
  {
    var n := if |x| < |y| then |x| else |y|;
    assert x[0..] == x && y[0..] == y;
    for i := 0 to n
      invariant Difference(x[i..], y[i..]) == Difference(x, y)
    {
      if x[i] != y[i] {
        var a: int, b: int := x[i], y[i];
        return a - b;
      }
      assert x[i..][1..] == x[i + 1..] && y[i..][1..] == y[i + 1..];
    }
    return |x| - |y|;
  }

  /** The sign of the difference is the lexicographic order, and zero means equal. */
  lemma {:induction false} DifferenceOrders(x: bytes, y: bytes)
    ensures Difference(x, y) <= 0 <==> Leq(x, y)
    ensures Difference(x, y) == 0 <==> x == y
    ensures Difference(y, x) == -Difference(x, y)
  {
    if x != [] && y != [] && x[0] == y[0] {
      DifferenceOrders(x[1..], y[1..]);
      assert x == [x[0]] + x[1..] && y == [y[0]] + y[1..];
    }
  }

  // ----- Sorting by a comparator -----

  /** What `sort` asks of its comparator. */
  ghost predicate Consistent<T(!new)>(cmp: (T, T) -> int) {
    (forall a :: cmp(a, a) == 0)
    && (forall a, b :: cmp(a, b) <= 0 <==> cmp(b, a) >= 0)
    && forall a, b, c :: cmp(a, b) <= 0 && cmp(b, c) <= 0 ==> cmp(a, c) <= 0
  }

  ghost predicate SortedBy<T>(cmp: (T, T) -> int, s: seq<T>) {
    forall i, j :: 0 <= i < j < |s| ==> cmp(s[i], s[j]) <= 0
  }

  /** The elements that compare equal to `x`, in order. */
  function Ties<T>(cmp: (T, T) -> int, x: T, s: seq<T>): seq<T> {
    if s == [] then [] else (if cmp(s[0], x) == 0 then [s[0]] else []) + Ties(cmp, x, s[1..])
  }

  /** What `sort` promises of its result `t`. */
  ghost predicate StablySorted<T(!new)>(cmp: (T, T) -> int, s: seq<T>, t: seq<T>) {
    multiset(t) == multiset(s) && SortedBy(cmp, t) && forall x :: Ties(cmp, x, t) == Ties(cmp, x, s)
  }

  function InsertBy<T>(cmp: (T, T) -> int, x: T, s: seq<T>): seq<T> {
    if s == [] || cmp(x, s[0]) <= 0 then [x] + s else [s[0]] + InsertBy(cmp, x, s[1..])
  }

  function SortBy<T>(cmp: (T, T) -> int, s: seq<T>): seq<T> {
    if s == [] then [] else InsertBy(cmp, s[0], SortBy(cmp, s[1..]))
  }

  lemma Compared<T(!new)>(cmp: (T, T) -> int, a: T, b: T, c: T)
    requires Consistent(cmp)
    ensures cmp(a, b) <= 0 && cmp(b, c) <= 0 ==> cmp(a, c) <= 0
    ensures cmp(a, b) <= 0 <==> cmp(b, a) >= 0
    ensures cmp(b, a) <= 0 <==> cmp(a, b) >= 0
  {
  }

  lemma SortedCons<T>(cmp: (T, T) -> int, x: T, s: seq<T>)
    requires SortedBy(cmp, s) && forall i :: 0 <= i < |s| ==> cmp(x, s[i]) <= 0
    ensures SortedBy(cmp, [x] + s)
  {
    var t := [x] + s;
    forall i, j | 0 <= i < j < |t| ensures cmp(t[i], t[j]) <= 0 {
      assert t[j] == s[j - 1];
      if i > 0 {
        assert t[i] == s[i - 1];
      }
    }
  }

  lemma {:induction false} InsertByElements<T>(cmp: (T, T) -> int, x: T, s: seq<T>)
    ensures multiset(InsertBy(cmp, x, s)) == multiset{x} + multiset(s)
  {
    if s != [] {
      InsertByElements(cmp, x, s[1..]);
      assert s == [s[0]] + s[1..];
    }
  }

  lemma {:induction false} InsertBySorted<T(!new)>(cmp: (T, T) -> int, x: T, s: seq<T>)
    requires Consistent(cmp) && SortedBy(cmp, s)
    ensures SortedBy(cmp, InsertBy(cmp, x, s))
  {
    hide Consistent;
    if s == [] {
    } else if cmp(x, s[0]) <= 0 {
      forall i | 0 <= i < |s| ensures cmp(x, s[i]) <= 0 {
        Compared(cmp, x, s[0], s[i]);
      }
      SortedCons(cmp, x, s);
    } else {
      InsertBySorted(cmp, x, s[1..]);
      Compared(cmp, s[0], x, x);
      hide InsertBy;
      HeadStaysFirst(cmp, x, s);
      hide SortedBy;
      SortedCons(cmp, s[0], InsertBy(cmp, x, s[1..]));
    }
  }

  lemma HeadStaysFirst<T(!new)>(cmp: (T, T) -> int, x: T, s: seq<T>)
    requires s != [] && SortedBy(cmp, s) && cmp(s[0], x) <= 0
    ensures var t := InsertBy(cmp, x, s[1..]); forall i :: 0 <= i < |t| ==> cmp(s[0], t[i]) <= 0
  {
    var t := InsertBy(cmp, x, s[1..]);
    InsertByElements(cmp, x, s[1..]);
    hide InsertBy;
    forall i | 0 <= i < |t| ensures cmp(s[0], t[i]) <= 0 {
      assert t[i] in multiset(t);
      if t[i] != x {
        assert t[i] in s[1..];
        var j :| 0 <= j < |s| - 1 && s[1..][j] == t[i];
        assert s[j + 1] == t[i];
      }
    }
  }

  lemma TiesCons<T>(cmp: (T, T) -> int, x: T, s: seq<T>, y: T)
    ensures Ties(cmp, y, [x] + s) == (if cmp(x, y) == 0 then [x] else []) + Ties(cmp, y, s)
  {
    assert ([x] + s)[1..] == s;
  }

  lemma {:induction false} InsertByTies<T(!new)>(cmp: (T, T) -> int, x: T, s: seq<T>, y: T)
    requires Consistent(cmp)
    ensures Ties(cmp, y, InsertBy(cmp, x, s)) == (if cmp(x, y) == 0 then [x] else []) + Ties(cmp, y, s)
  {
    hide Consistent, Ties;
    TiesCons(cmp, x, s, y);
    if s != [] && cmp(x, s[0]) > 0 {
      InsertByTies(cmp, x, s[1..], y);
      TiesCons(cmp, s[0], InsertBy(cmp, x, s[1..]), y);
      TiesCons(cmp, s[0], s[1..], y);
      assert s == [s[0]] + s[1..];
      Compared(cmp, x, y, s[0]);
      Compared(cmp, y, s[0], y);
      var others := Ties(cmp, y, s[1..]);
      assert [s[0]] + ([] + others) == [] + ([s[0]] + others);
      assert [] + ([x] + others) == [x] + ([] + others);
    }
  }

  lemma {:induction false} SortByKeeps<T(!new)>(cmp: (T, T) -> int, s: seq<T>)
    requires Consistent(cmp)
    ensures StablySorted(cmp, s, SortBy(cmp, s))
  {
    if s != [] {
      SortByKeeps(cmp, s[1..]);
      InsertBySorted(cmp, s[0], SortBy(cmp, s[1..]));
      InsertByElements(cmp, s[0], SortBy(cmp, s[1..]));
      forall x ensures Ties(cmp, x, SortBy(cmp, s)) == Ties(cmp, x, s) {
        InsertByTies(cmp, s[0], SortBy(cmp, s[1..]), x);
      }
      assert s == [s[0]] + s[1..];
    }
  }

  // ----- The two sorts of the script -----

  function ByItemId(a: Item, b: Item): int { Difference(a.itemId, b.itemId) }

  lemma DifferenceTransitive(x: bytes, y: bytes, z: bytes)
    ensures Difference(x, y) <= 0 && Difference(y, z) <= 0 ==> Difference(x, z) <= 0
  {
    DifferenceOrders(x, y);
    DifferenceOrders(y, z);
    DifferenceOrders(x, z);
    if Leq(x, y) && Leq(y, z) {
      LeqTransitive(x, y, z);
    }
  }

  lemma ComparatorsConsistent()
    ensures Consistent(Difference) && Consistent(ByItemId)
  {
    hide Difference;
    forall x, y ensures (Difference(x, y) <= 0 <==> Difference(y, x) >= 0) && Difference(x, x) == 0 {
      DifferenceOrders(x, y);
      DifferenceOrders(x, x);
    }
    forall x, y, z ensures Difference(x, y) <= 0 && Difference(y, z) <= 0 ==> Difference(x, z) <= 0 {
      DifferenceTransitive(x, y, z);
    }
  }

  /** Whatever a sort by byte difference returns is the one sorted arrangement. */
  lemma TextsSorted(s: seq<bytes>, t: seq<bytes>)
    ensures StablySorted(Difference, s, t) <==> t == Sort(s)
  {
    ComparatorsConsistent();
    SortSorts(s);
    SortByKeeps(Difference, s);
    forall x, y ensures Difference(x, y) <= 0 <==> Leq(x, y) {
      DifferenceOrders(x, y);
    }
    if StablySorted(Difference, s, t) {
      SortedUnique(t, Sort(s));
    }
    SortedUnique(SortBy(Difference, s), Sort(s));
  }

  lemma {:induction false} TiesAreSameId(x: Item, s: seq<Item>)
    ensures Ties(ByItemId, x, s) == WithId(s, x.itemId)
  {
    if s != [] {
      TiesAreSameId(x, s[1..]);
      DifferenceOrders(s[0].itemId, x.itemId);
    }
  }

  /** Whatever a stable sort of items by the byte difference of their ids returns is the Rust order. */
  lemma ItemsSorted(s: seq<Item>, t: seq<Item>)
    ensures StablySorted(ByItemId, s, t) <==> t == SortItems(s)
  {
    ComparatorsConsistent();
    SortByKeeps(ByItemId, s);
    SortItemsSorts(s);
    if StablySorted(ByItemId, s, t) {
      StableIsSortItems(s, t);
    }
    StableIsSortItems(s, SortBy(ByItemId, s));
  }

  lemma StableIsSortItems(s: seq<Item>, t: seq<Item>)
    requires StablySorted(ByItemId, s, t)
    ensures t == SortItems(s)
  {
    SortItemsSorts(s);
    forall i, j | 0 <= i < j < |t| ensures Leq(t[i].itemId, t[j].itemId) {
      assert ByItemId(t[i], t[j]) <= 0;
      DifferenceOrders(t[i].itemId, t[j].itemId);
    }
    forall id ensures WithId(t, id) == WithId(SortItems(s), id) {
      SortItemsStable(s, id);
      if s != [] {
        var x := s[0].(itemId := id);
        TiesAreSameId(x, s);
        TiesAreSameId(x, t);
      } else {
        assert |multiset(t)| == |t| && |multiset(s)| == 0;
      }
    }
    SortedByIdUnique(t, SortItems(s));
  }

  /** `sort(byteCompare)` and the sort by item id. */
  lemma SortsAgree(texts: seq<bytes>, items: seq<Item>)
    ensures SortBy(Difference, texts) == Sort(texts) && SortBy(ByItemId, items) == SortItems(items)
  {
    ComparatorsConsistent();
    SortByKeeps(Difference, texts);
    SortByKeeps(ByItemId, items);
    TextsSorted(texts, SortBy(Difference, texts));
    ItemsSorted(items, SortBy(ByItemId, items));
  }
}
