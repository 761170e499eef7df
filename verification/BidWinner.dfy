/**
 Which bid wins, in words of the bids alone: the trust levels by name, the reputations as floats, the
 latencies and the order of arrival.
 */
module BidWinner {
  import opened Wrappers
  import opened BidSelection

  /** `a` is trusted more than `b`: delegated, standard, community and unverified, then anything else. */
  predicate MoreTrusted(a: string, b: string) {
    || (a == "delegated" && b != "delegated")
    || (a == "standard" && b !in {"delegated", "standard"})
    || (a == "community" && b !in {"delegated", "standard", "community"})
    || (a == "unverified" && b !in {"delegated", "standard", "community", "unverified"})
  }

  predicate EquallyTrusted(a: string, b: string) { !MoreTrusted(a, b) && !MoreTrusted(b, a) }

  predicate Negative(bits: bits32) { bits / 0x8000_0000 == 1 }

  function Magnitude(bits: bits32): int { bits % 0x8000_0000 }

  /** `a` comes after `b` in the total order of section 5.10 of IEEE 754: a negative float before any
      other, and of two of one sign the smaller in magnitude first, or last if they are negative. */
  predicate Greater(a: bits32, b: bits32) {
    if Negative(a) != Negative(b) then Negative(b)
    else if Negative(a) then Magnitude(a) < Magnitude(b)
    else Magnitude(a) > Magnitude(b)
  }

  /** The bid offers every capability the request requires and, if the request restricts providers, comes
      from one it allows that is connected or can be dialled. */
  predicate Contends(r: Request, connected: string -> bool, b: Bid) {
    (forall q :: q in r.required ==> q in b.offered)
    && (r.allowed.Some? ==> b.providerDid in r.allowed.value && (connected(b.providerDid) || b.multiaddrs != []))
  }

  ghost predicate AnyoneContends(r: Request, connected: string -> bool, bids: seq<Bid>) {
    exists i :: 0 <= i < |bids| && Contends(r, connected, bids[i])
  }

  ghost predicate PreferredContends(r: Request, connected: string -> bool, bids: seq<Bid>) {
    exists i :: 0 <= i < |bids| && Contends(r, connected, bids[i]) && r.preferred == Some(bids[i].providerDid)
  }

  /** Among the contenders, `bids[i]` is the first of the preferred provider. */
  ghost predicate FirstPreferred(r: Request, connected: string -> bool, bids: seq<Bid>, i: nat) {
    i < |bids| && Contends(r, connected, bids[i]) && r.preferred == Some(bids[i].providerDid)
    && forall j :: 0 <= j < i && Contends(r, connected, bids[j]) ==> r.preferred != Some(bids[j].providerDid)
  }

  /** No contender is trusted more than `bids[i]`; of those trusted equally none has a greater reputation; of
      those equal in both none has less latency; and `bids[i]` comes first of those equal in all three. */
  ghost predicate FirstOfBest(r: Request, connected: string -> bool, bids: seq<Bid>, i: nat) {
    i < |bids| && Contends(r, connected, bids[i])
    && forall j :: 0 <= j < |bids| && Contends(r, connected, bids[j]) ==> NotBetter(bids[j], j, bids[i], i)
  }

  predicate NotBetter(b: Bid, j: nat, w: Bid, i: nat) {
    !MoreTrusted(b.trustLevel, w.trustLevel)
    && (EquallyTrusted(b.trustLevel, w.trustLevel) ==> !Greater(b.reputation, w.reputation))
    && (EquallyTrusted(b.trustLevel, w.trustLevel) && b.reputation == w.reputation ==> b.latencyMs >= w.latencyMs)
    && (EquallyTrusted(b.trustLevel, w.trustLevel) && b.reputation == w.reputation && b.latencyMs == w.latencyMs
        ==> i <= j)
  }

  ghost predicate Wins(r: Request, connected: string -> bool, bids: seq<Bid>, i: nat) {
    if PreferredContends(r, connected, bids) then FirstPreferred(r, connected, bids, i)
    else FirstOfBest(r, connected, bids, i)
  }

  // ----- The ranking -----

  lemma RankIsTrust(a: string, b: string)
    ensures MoreTrusted(a, b) <==> TrustRank(a) > TrustRank(b)
  {
  }

  lemma GreaterIsLater(a: bits32, b: bits32)
    ensures Greater(a, b) <==> TotalOrder(a) > TotalOrder(b)
    ensures a != b ==> Greater(a, b) || Greater(b, a)
  {
  }

  /** A bid is not better exactly when it does not rank above, and does not come first when it ranks alike. */
  lemma NotBetterExactly(b: Bid, j: nat, w: Bid, i: nat)
    ensures NotBetter(b, j, w, i) <==> !Above(b, w) && (j < i ==> Above(w, b))
  {
    RankIsTrust(b.trustLevel, w.trustLevel);
    RankIsTrust(w.trustLevel, b.trustLevel);
    GreaterIsLater(b.reputation, w.reputation);
    GreaterIsLater(w.reputation, b.reputation);
    hide TrustRank, MoreTrusted, Greater, TotalOrder;
  }

  // ----- Contenders and their places -----

  lemma ContendersSnoc(r: Request, connected: string -> bool, bids: seq<Bid>, b: Bid)
    ensures Contenders(r, connected, bids + [b])
            == Contenders(r, connected, bids) + if Contends(r, connected, b) then [b] else []
  {
    ContendersAppend(r, connected, bids, [b]);
    assert [b][1..] == [];
    assert Covers(r.required, b.offered) <==> forall q :: q in r.required ==> q in b.offered;
    var kept := Kept(r, connected, [b]);
    if r.allowed.Some? {
      assert FilterAllowed([], r.allowed.value, connected) == [];
    }
    assert kept == [b] || kept == [];
    assert Eligible([], r.required) == [];
  }

  lemma AnyoneSnoc(r: Request, connected: string -> bool, bids: seq<Bid>, b: Bid)
    ensures AnyoneContends(r, connected, bids + [b])
            <==> AnyoneContends(r, connected, bids) || Contends(r, connected, b)
  {
    hide Contends;
    var more := bids + [b];
    assert more[|bids|] == b && forall i :: 0 <= i < |bids| ==> more[i] == bids[i];
    if i :| 0 <= i < |more| && Contends(r, connected, more[i]) && i < |bids| {
      assert Contends(r, connected, bids[i]);
    }
    if i :| 0 <= i < |bids| && Contends(r, connected, bids[i]) {
      assert Contends(r, connected, more[i]);
    }
  }

  /** The best of the contenders, and where it stands among the bids. */
  lemma {:induction false} BestStands(r: Request, connected: string -> bool, bids: seq<Bid>) returns (i: nat)
    requires AnyoneContends(r, connected, bids)
    ensures FirstOfBest(r, connected, bids, i) && Best(Contenders(r, connected, bids)) == Some(bids[i])
    decreases |bids|
  {
    hide Contends, Above, FirstOfBest, Best, Contenders;
    assert bids != [];
    var n := |bids| - 1;
    var init, last := bids[..n], bids[n];
    assert bids == init + [last];
    AnyoneSnoc(r, connected, init, last);
    ContendersSnoc(r, connected, init, last);
    var before := Contenders(r, connected, init);
    hide AnyoneContends;
    if !AnyoneContends(r, connected, init) {
      NoContenders(r, connected, init);
      i := n;
      OnlyLast(r, connected, init, last);
      assert [] + [last] == [last];
      OneBest(last);
    } else {
      i := BestStands(r, connected, init);
      AtPlace(r, connected, init, i);
      assert bids[i] == init[i];
      if Contends(r, connected, last) {
        BestSnoc(before, last);
        LastOrBest(r, connected, bids, i);
        i := if Above(last, bids[i]) then n else i;
      } else {
        assert before + [] == before;
        NotLast(r, connected, init, last, i);
      }
    }
  }

  lemma AtPlace(r: Request, connected: string -> bool, bids: seq<Bid>, i: nat)
    requires FirstOfBest(r, connected, bids, i)
    ensures i < |bids| && Contends(r, connected, bids[i])
  {
  }

  lemma OneBest(b: Bid)
    ensures Best([b]) == Some(b)
  {
    assert [b][..0] == [];
  }

  lemma OnlyLast(r: Request, connected: string -> bool, bids: seq<Bid>, b: Bid)
    requires !AnyoneContends(r, connected, bids) && Contends(r, connected, b)
    ensures FirstOfBest(r, connected, bids + [b], |bids|)
  {
    hide Contends, Above;
    AboveIsOrder(b, b, b);
    NotBetterExactly(b, |bids|, b, |bids|);
    hide NotBetter;
    var more := bids + [b];
    assert forall j :: 0 <= j < |bids| ==> more[j] == bids[j] && !Contends(r, connected, bids[j]);
  }

  lemma NotLast(r: Request, connected: string -> bool, bids: seq<Bid>, b: Bid, i: nat)
    requires FirstOfBest(r, connected, bids, i) && !Contends(r, connected, b)
    ensures FirstOfBest(r, connected, bids + [b], i)
  {
    hide Contends, NotBetter;
    var more := bids + [b];
    forall j | 0 <= j < |more| && Contends(r, connected, more[j]) ensures NotBetter(more[j], j, more[i], i) {
      assert more[j] == bids[j];
    }
  }

  lemma BestSnoc(s: seq<Bid>, b: Bid)
    ensures Best(s + [b]) == if Best(s).None? || Above(b, Best(s).value) then Some(b) else Best(s)
  {
    assert (s + [b])[..|s|] == s;
  }

  /** One more contender: it takes the place of the best one exactly when it ranks above. */
  lemma LastOrBest(r: Request, connected: string -> bool, bids: seq<Bid>, i: nat)
    requires bids != [] && Contends(r, connected, bids[|bids| - 1])
    requires FirstOfBest(r, connected, bids[..|bids| - 1], i)
    ensures FirstOfBest(r, connected, bids, if Above(bids[|bids| - 1], bids[i]) then |bids| - 1 else i)
  {
    hide Contends, Above, NotBetter;
    var n := |bids| - 1;
    var last := bids[n];
    var k := if Above(last, bids[i]) then n else i;
    forall j | 0 <= j <= n && Contends(r, connected, bids[j]) ensures NotBetter(bids[j], j, bids[k], k) {
      AboveIsOrder(last, last, last);
      if j < n {
        assert bids[..n][j] == bids[j];
        NotBetterExactly(bids[j], j, bids[i], i);
        AboveIsOrder(bids[j], bids[i], last);
        AboveIsOrder(last, bids[j], bids[i]);
      }
      NotBetterExactly(bids[j], j, bids[k], k);
    }
  }

  lemma {:induction false} NoContenders(r: Request, connected: string -> bool, bids: seq<Bid>)
    requires !AnyoneContends(r, connected, bids)
    ensures Contenders(r, connected, bids) == []
    decreases |bids|
  {
    if bids != [] {
      hide Contends, Contenders;
      var init, last := bids[..|bids| - 1], bids[|bids| - 1];
      assert bids == init + [last];
      AnyoneSnoc(r, connected, init, last);
      NoContenders(r, connected, init);
      ContendersSnoc(r, connected, init, last);
    } else {
      assert Kept(r, connected, []) == [];
    }
  }

  /** The preferred provider's first contender, and where it stands. */
  lemma {:induction false} PreferredStands(r: Request, connected: string -> bool, bids: seq<Bid>) returns (i: nat)
    requires r.preferred.Some?
    ensures PreferredContends(r, connected, bids) ==>
              FirstPreferred(r, connected, bids, i)
              && FirstFrom(Contenders(r, connected, bids), r.preferred.value) == Some(bids[i])
    ensures !PreferredContends(r, connected, bids) ==>
              FirstFrom(Contenders(r, connected, bids), r.preferred.value) == None
    decreases |bids|
  {
    i := 0;
    if bids == [] {
      NoContenders(r, connected, bids);
    } else {
      hide Contends, Contenders, PreferredContends, FirstPreferred;
      var n, did := |bids| - 1, r.preferred.value;
      var init, last := bids[..n], bids[n];
      var k := PreferredStands(r, connected, init);
      assert bids == init + [last];
      ContendersSnoc(r, connected, init, last);
      PreferredSnoc(r, connected, init, last);
      var added := if Contends(r, connected, last) then [last] else [];
      FirstFromAppend(Contenders(r, connected, init), added, did);
      assert added == [last] ==> added[1..] == [];
      assert FirstFrom(added, did) == if added != [] && last.providerDid == did then Some(last) else None;
      if PreferredContends(r, connected, init) {
        i := k;
        FirstStays(r, connected, init, last, k);
      } else {
        i := n;
      }
    }
  }

  lemma PreferredSnoc(r: Request, connected: string -> bool, bids: seq<Bid>, b: Bid)
    ensures PreferredContends(r, connected, bids + [b])
            <==> PreferredContends(r, connected, bids)
                 || (Contends(r, connected, b) && r.preferred == Some(b.providerDid))
    ensures !PreferredContends(r, connected, bids) && Contends(r, connected, b) && r.preferred == Some(b.providerDid)
            ==> FirstPreferred(r, connected, bids + [b], |bids|)
  {
    hide Contends;
    var more := bids + [b];
    assert more[|bids|] == b && forall i :: 0 <= i < |bids| ==> more[i] == bids[i];
    if i :| 0 <= i < |bids| && Contends(r, connected, bids[i]) && r.preferred == Some(bids[i].providerDid) {
      assert Contends(r, connected, more[i]);
    }
  }

  lemma FirstStays(r: Request, connected: string -> bool, bids: seq<Bid>, b: Bid, i: nat)
    requires FirstPreferred(r, connected, bids, i)
    ensures FirstPreferred(r, connected, bids + [b], i)
  {
    hide Contends;
    var more := bids + [b];
    assert forall j :: 0 <= j < |bids| ==> more[j] == bids[j];
  }

  // ----- Main result -----

  lemma OneWinner(r: Request, connected: string -> bool, bids: seq<Bid>, i: nat, j: nat)
    requires Wins(r, connected, bids, i) && Wins(r, connected, bids, j)
    ensures i == j
  {
    hide Contends;
    if !PreferredContends(r, connected, bids) {
      assert NotBetter(bids[j], j, bids[i], i) && NotBetter(bids[i], i, bids[j], j);
      GreaterIsLater(bids[i].reputation, bids[j].reputation);
    }
  }

  /** A bid wins exactly when it is the preferred provider's first contender or, if that one has none, the
      first of the best; there is one such bid exactly when anyone contends, and never two. */
  lemma WinnerExactly(r: Request, connected: string -> bool, bids: seq<Bid>)
    ensures forall i: nat :: Wins(r, connected, bids, i) ==> Winner(r, connected, bids) == Some(bids[i])
    ensures Winner(r, connected, bids).Some? <==> exists i: nat :: Wins(r, connected, bids, i)
    ensures Winner(r, connected, bids).Some? <==> AnyoneContends(r, connected, bids)
    ensures forall i: nat, j: nat :: Wins(r, connected, bids, i) && Wins(r, connected, bids, j) ==> i == j
  {
    hide Contends, FirstOfBest, FirstPreferred, PreferredContends, AnyoneContends;
    WinsContends(r, connected, bids);
    hide Wins;
    forall i: nat, j: nat | Wins(r, connected, bids, i) && Wins(r, connected, bids, j) ensures i == j {
      OneWinner(r, connected, bids, i, j);
    }
    if AnyoneContends(r, connected, bids) {
      var w := SomeoneWins(r, connected, bids);
    } else {
      NobodyWins(r, connected, bids);
    }
  }

  lemma SomeoneWins(r: Request, connected: string -> bool, bids: seq<Bid>) returns (w: nat)
    requires AnyoneContends(r, connected, bids)
    ensures w < |bids| && Wins(r, connected, bids, w) && Winner(r, connected, bids) == Some(bids[w])
  {
    hide Contends, FirstOfBest, PreferredContends, AnyoneContends, NotBetter;
    w := 0;
    if r.preferred.Some? {
      w := PreferredStands(r, connected, bids);
    } else {
      NoPreference(r, connected, bids);
    }
    if !PreferredContends(r, connected, bids) {
      w := BestStands(r, connected, bids);
      AtPlace(r, connected, bids, w);
    }
  }

  lemma NoPreference(r: Request, connected: string -> bool, bids: seq<Bid>)
    requires r.preferred.None?
    ensures !PreferredContends(r, connected, bids)
  {
  }

  lemma NobodyWins(r: Request, connected: string -> bool, bids: seq<Bid>)
    requires !AnyoneContends(r, connected, bids)
    ensures Winner(r, connected, bids) == None && forall i: nat :: !Wins(r, connected, bids, i)
  {
    hide Contends;
    NoContenders(r, connected, bids);
    WinsContends(r, connected, bids);
  }

  lemma WinsContends(r: Request, connected: string -> bool, bids: seq<Bid>)
    ensures forall i: nat :: Wins(r, connected, bids, i) ==> i < |bids| && Contends(r, connected, bids[i])
  {
    hide Contends, NotBetter;
  }
}
