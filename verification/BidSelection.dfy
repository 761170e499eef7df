/**
 Choosing who executes a mission: which bids count, which one wins, and why the bidding window may
 close as soon as the preferred provider has bid.
 */
module BidSelection {
  import opened Wrappers

  type bits32 = x: int | 0 <= x < 0x1_0000_0000

  type int32 = x: int | -0x8000_0000 <= x < 0x8000_0000

  /** The reputation is the bit pattern of a 32-bit float. */
  datatype Bid = Bid(
    missionId: string, providerDid: string, multiaddrs: seq<string>, offered: seq<string>,
    trustLevel: string, reputation: bits32, latencyMs: int32)

  function TrustRank(level: string): int {
    if level == "delegated" then 4
    else if level == "standard" then 3
    else if level == "community" then 2
    else if level == "unverified" then 1
    else 0
  }

  /** Position of a float in the IEEE 754 total order. */
  function TotalOrder(bits: bits32): int {
    if bits < 0x8000_0000 then bits else -1 - (bits - 0x8000_0000)
  }

  /** `a` ranks strictly above `b`: by trust, then reputation, then latency. */
  predicate Above(a: Bid, b: Bid) {
    if TrustRank(a.trustLevel) != TrustRank(b.trustLevel) then TrustRank(a.trustLevel) > TrustRank(b.trustLevel)
    else if a.reputation != b.reputation then TotalOrder(a.reputation) > TotalOrder(b.reputation)
    else a.latencyMs < b.latencyMs
  }

  lemma AboveIsOrder(a: Bid, b: Bid, c: Bid)
    ensures !Above(a, a)
    ensures Above(a, b) ==> !Above(b, a)
    ensures !Above(a, b) && !Above(b, c) ==> !Above(a, c)
  {
  }

  /** `offered` includes every required capability. */
  predicate Covers(required: seq<string>, offered: seq<string>) {
    forall i :: 0 <= i < |required| ==> required[i] in offered
  }

  function Eligible(bids: seq<Bid>, required: seq<string>): seq<Bid> {
    if bids == [] then []
    else (if Covers(required, bids[0].offered) then [bids[0]] else []) + Eligible(bids[1..], required)
  }

  function FirstFrom(bids: seq<Bid>, did: string): Option<Bid> {
    if bids == [] then None
    else if bids[0].providerDid == did then Some(bids[0])
    else FirstFrom(bids[1..], did)
  }

  /** The first of the bids no other ranks above. */
  function Best(bids: seq<Bid>): Option<Bid> {
    if bids == [] then None
    else
      var init, last := bids[..|bids| - 1], bids[|bids| - 1];
      match Best(init)
      case None => Some(last)
      case Some(b) => if Above(last, b) then Some(last) else Some(b)
  }

  function SelectWinningBid(bids: seq<Bid>, required: seq<string>, preferred: Option<string>): Option<Bid> {
    var eligible := Eligible(bids, required);
    if preferred.Some? && FirstFrom(eligible, preferred.value).Some? then FirstFrom(eligible, preferred.value)
    else Best(eligible)
  }

  /** Bids from allowed providers that can be reached, over a live connection or by dialling. */
  function FilterAllowed(bids: seq<Bid>, allowed: seq<string>, connected: string -> bool): seq<Bid> {
    if bids == [] then []
    else
      var bid := bids[0];
      (if bid.providerDid in allowed && (connected(bid.providerDid) || bid.multiaddrs != []) then [bid] else [])
      + FilterAllowed(bids[1..], allowed, connected)
  }

  /** Who may win a mission: the request's capabilities, preference and allowed providers. */
  datatype Request = Request(
    missionId: string, required: seq<string>, preferred: Option<string>, allowed: Option<seq<string>>)

  function Kept(r: Request, connected: string -> bool, bids: seq<Bid>): seq<Bid> {
    if r.allowed.None? then bids else FilterAllowed(bids, r.allowed.value, connected)
  }

  function Winner(r: Request, connected: string -> bool, bids: seq<Bid>): Option<Bid> {
    SelectWinningBid(Kept(r, connected, bids), r.required, r.preferred)
  }

  // ----- The winner is the best -----

  lemma {:induction false} EligibleExactly(bids: seq<Bid>, required: seq<string>, b: Bid)
    ensures b in Eligible(bids, required) <==> b in bids && Covers(required, b.offered)
  {
    if bids != [] {
      EligibleExactly(bids[1..], required, b);
      assert bids == [bids[0]] + bids[1..];
    }
  }

  lemma {:induction false} FirstFromExactly(bids: seq<Bid>, did: string)
    ensures FirstFrom(bids, did).Some? <==> exists i :: 0 <= i < |bids| && bids[i].providerDid == did
    ensures FirstFrom(bids, did).Some? ==>
              exists i :: 0 <= i < |bids| && FirstFrom(bids, did) == Some(bids[i]) && bids[i].providerDid == did
                && forall j :: 0 <= j < i ==> bids[j].providerDid != did
  {
    if bids != [] && bids[0].providerDid != did {
      FirstFromExactly(bids[1..], did);
      if FirstFrom(bids[1..], did).Some? {
        var i :| 0 <= i < |bids[1..]| && FirstFrom(bids[1..], did) == Some(bids[1..][i])
            && bids[1..][i].providerDid == did
          && forall j :: 0 <= j < i ==> bids[1..][j].providerDid != did;
        assert bids[i + 1] == bids[1..][i];
        forall j | 0 <= j < i + 1 ensures bids[j].providerDid != did {
          if j > 0 {
            assert bids[j] == bids[1..][j - 1];
          }
        }
      } else {
        forall i | 0 <= i < |bids| ensures bids[i].providerDid != did {
          if i > 0 {
            assert bids[i] == bids[1..][i - 1];
          }
        }
      }
    }
  }

  /** `bids[i]` is the earliest of the bids that none ranks above. */
  ghost predicate Earliest(bids: seq<Bid>, i: nat) {
    i < |bids|
    && (forall j :: 0 <= j < |bids| ==> !Above(bids[j], bids[i]))
    && (forall j :: 0 <= j < i ==> Above(bids[i], bids[j]))
  }

  lemma {:induction false} BestIsEarliest(bids: seq<Bid>) returns (i: nat)
    requires bids != []
    ensures Earliest(bids, i) && Best(bids) == Some(bids[i])
  {
    var n := |bids| - 1;
    var init, last := bids[..n], bids[n];
    if n == 0 {
      assert init == [];
      AboveIsOrder(last, last, last);
      i := 0;
    } else {
      i := BestIsEarliest(init);
      AboveIsOrder(last, last, last);
      if Above(last, init[i]) {
        forall j | 0 <= j < n ensures Above(last, bids[j]) && !Above(bids[j], last) {
          assert bids[j] == init[j];
          AboveIsOrder(init[j], init[i], last);
          AboveIsOrder(last, init[j], init[i]);
        }
        i := n;
      }
    }
  }

  /** The winner exists exactly when some kept bid covers the requirements, and it is one of those. It is
      the preferred provider's first such bid if there is one, and otherwise the earliest of the bids
      that none ranks above. */
  lemma WinnerCorrect(bids: seq<Bid>, required: seq<string>, preferred: Option<string>)
    ensures var w := SelectWinningBid(bids, required, preferred);
            var eligible := Eligible(bids, required);
            && (w.Some? <==> exists i :: 0 <= i < |bids| && forall q :: q in required ==> q in bids[i].offered)
            && (w.Some? ==> w.value in bids && forall q :: q in required ==> q in w.value.offered)
            && (w.Some? && (preferred.None? || FirstFrom(eligible, preferred.value).None?)
                ==> exists i: nat :: Earliest(eligible, i) && w.value == eligible[i])
            && (preferred.Some? 
                && (exists i :: 0 <= i < |bids| && bids[i].providerDid == preferred.value
                                && Covers(required, bids[i].offered))
                ==> w.Some? && w.value.providerDid == preferred.value)
  {
    var eligible := Eligible(bids, required);
    var w := SelectWinningBid(bids, required, preferred);
    forall b: Bid ensures Covers(required, b.offered) <==> forall q :: q in required ==> q in b.offered {
    }
    if i :| 0 <= i < |bids| && Covers(required, bids[i].offered) {
      EligibleExactly(bids, required, bids[i]);
    }
    if preferred.Some? {
      FirstFromExactly(eligible, preferred.value);
      if i :| 0 <= i < |bids| && bids[i].providerDid == preferred.value && Covers(required, bids[i].offered) {
        EligibleExactly(bids, required, bids[i]);
        var k :| 0 <= k < |eligible| && eligible[k] == bids[i];
      }
    }
    if eligible != [] {
      var i := BestIsEarliest(eligible);
    }
    if w.Some? {
      EligibleExactly(bids, required, w.value);
    }
  }

  lemma {:induction false} AllowedExactly(bids: seq<Bid>, allowed: seq<string>, connected: string -> bool, b: Bid)
    ensures b in FilterAllowed(bids, allowed, connected)
            <==> b in bids && b.providerDid in allowed && (connected(b.providerDid) || b.multiaddrs != [])
  {
    if bids != [] {
      AllowedExactly(bids[1..], allowed, connected, b);
      assert bids == [bids[0]] + bids[1..];
    }
  }

  /** A winner bid, covers the requirements and, when the request restricts providers, is an allowed one
      that can be reached. */
  lemma WinnerEligible(r: Request, connected: string -> bool, bids: seq<Bid>)
    requires Winner(r, connected, bids).Some?
    ensures var w := Winner(r, connected, bids).value;
            && w in bids && Covers(r.required, w.offered)
            && (r.allowed.Some? ==>
                  w.providerDid in r.allowed.value && (connected(w.providerDid) || w.multiaddrs != []))
  {
    WinnerCorrect(Kept(r, connected, bids), r.required, r.preferred);
    if r.allowed.Some? {
      AllowedExactly(bids, r.allowed.value, connected, Winner(r, connected, bids).value);
    }
  }

  // ----- Closing the window early -----

  lemma {:induction false} EligibleAppend(a: seq<Bid>, b: seq<Bid>, required: seq<string>)
    ensures Eligible(a + b, required) == Eligible(a, required) + Eligible(b, required)
  {
    if a == [] {
      assert a + b == b;
    } else {
      assert (a + b)[0] == a[0] && (a + b)[1..] == a[1..] + b;
      EligibleAppend(a[1..], b, required);
    }
  }

  lemma {:induction false} FilterAppend(a: seq<Bid>, b: seq<Bid>, allowed: seq<string>, connected: string -> bool)
    ensures FilterAllowed(a + b, allowed, connected)
            == FilterAllowed(a, allowed, connected) + FilterAllowed(b, allowed, connected)
  {
    if a == [] {
      assert a + b == b;
    } else {
      assert (a + b)[0] == a[0] && (a + b)[1..] == a[1..] + b;
      FilterAppend(a[1..], b, allowed, connected);
    }
  }

  lemma {:induction false} FirstFromAppend(a: seq<Bid>, b: seq<Bid>, did: string)
    ensures FirstFrom(a + b, did) == if FirstFrom(a, did).Some? then FirstFrom(a, did) else FirstFrom(b, did)
  {
    if a == [] {
      assert a + b == b;
    } else {
      assert (a + b)[0] == a[0] && (a + b)[1..] == a[1..] + b;
      FirstFromAppend(a[1..], b, did);
    }
  }

  /** The bids that can win. */
  function Contenders(r: Request, connected: string -> bool, bids: seq<Bid>): seq<Bid> {
    Eligible(Kept(r, connected, bids), r.required)
  }

  lemma ContendersAppend(r: Request, connected: string -> bool, a: seq<Bid>, b: seq<Bid>)
    ensures Contenders(r, connected, a + b) == Contenders(r, connected, a) + Contenders(r, connected, b)
  {
    if r.allowed.Some? {
      FilterAppend(a, b, r.allowed.value, connected);
    }
    EligibleAppend(Kept(r, connected, a), Kept(r, connected, b), r.required);
  }

  /** The preferred provider has a bid that passes the filter and covers the requirements. */
  predicate PreferredCounts(r: Request, connected: string -> bool, bids: seq<Bid>) {
    r.preferred.Some? && FirstFrom(Contenders(r, connected, bids), r.preferred.value).Some?
  }

  /** Once the preferred provider's bid counts, no later bid changes the winner. */
  lemma EarlyCloseSafe(r: Request, connected: string -> bool, bids: seq<Bid>, later: seq<Bid>)
    requires PreferredCounts(r, connected, bids)
    ensures Winner(r, connected, bids + later) == Winner(r, connected, bids)
  {
    ContendersAppend(r, connected, bids, later);
    FirstFromAppend(Contenders(r, connected, bids), Contenders(r, connected, later), r.preferred.value);
  }

  /** A bid that covers everything, can be dialled and ranks as high as any. */
  function TopBid(r: Request, did: string): Bid {
    Bid(r.missionId, did, ["/ip4/10.0.0.1/tcp/4002/tls/ws"], r.required, "delegated", 0x7FFF_FFFF, -0x8000_0000)
  }

  /** No bid can rank above this one: highest trust, greatest of all floats, least latency. */
  predicate Unbeatable(b: Bid) {
    TrustRank(b.trustLevel) == 4 && b.reputation == 0x7FFF_FFFF && b.latencyMs == -0x8000_0000
  }

  lemma TopOrUnbeatable(r: Request, did: string, b: Bid)
    ensures Above(TopBid(r, did), b) <==> !Unbeatable(b)
    ensures Unbeatable(b) ==> forall c :: !Above(c, b)
  {
  }

  lemma TopContends(r: Request, connected: string -> bool, did: string)
    requires r.allowed.Some? ==> did in r.allowed.value
    ensures Contenders(r, connected, [TopBid(r, did)]) == [TopBid(r, did)]
  {
    var top := TopBid(r, did);
    assert [top][0] == top && [top][1..] == [];
    if r.allowed.Some? {
      assert FilterAllowed([top][1..], r.allowed.value, connected) == [];
      assert FilterAllowed([top], r.allowed.value, connected) == [top] + [];
    }
    assert Kept(r, connected, [top]) == [top];
    assert Covers(r.required, top.offered);
    assert Eligible([top], r.required) == [top] + Eligible([top][1..], r.required);
  }

  /** The filter lets the preferred provider through. */
  predicate PreferredAllowed(r: Request) {
    r.preferred.Some? && (r.allowed.Some? ==> r.preferred.value in r.allowed.value)
  }

  /** A provider the filter does not let through has no bid that can win. */
  lemma NotContending(r: Request, connected: string -> bool, bids: seq<Bid>, did: string)
    requires r.allowed.Some? && did !in r.allowed.value
    ensures FirstFrom(Contenders(r, connected, bids), did) == None
  {
    var contenders := Contenders(r, connected, bids);
    FirstFromExactly(contenders, did);
    forall i | 0 <= i < |contenders| ensures contenders[i].providerDid != did {
      EligibleExactly(Kept(r, connected, bids), r.required, contenders[i]);
      AllowedExactly(bids, r.allowed.value, connected, contenders[i]);
    }
  }

  /** When the preferred provider cannot win, the best contender does. */
  lemma BestWins(r: Request, connected: string -> bool, bids: seq<Bid>)
    requires !PreferredAllowed(r)
    ensures Winner(r, connected, bids) == Best(Contenders(r, connected, bids))
  {
    if r.preferred.Some? {
      NotContending(r, connected, bids, r.preferred.value);
    }
  }

  lemma {:induction false} UnbeatableStays(a: seq<Bid>, later: seq<Bid>)
    requires Best(a).Some? && Unbeatable(Best(a).value)
    ensures Best(a + later) == Best(a)
  {
    if later == [] {
      assert a + later == a;
    } else {
      var init := later[..|later| - 1];
      assert (a + later)[..|a + later| - 1] == a + init;
      UnbeatableStays(a, init);
    }
  }

  lemma BestWithTop(r: Request, bids: seq<Bid>, did: string)
    requires Best(bids).None? || !Unbeatable(Best(bids).value)
    ensures Best(bids + [TopBid(r, did)]) == Some(TopBid(r, did)) != Best(bids)
  {
    var top := TopBid(r, did);
    assert (bids + [top])[..|bids|] == bids;
    if Best(bids).Some? {
      TopOrUnbeatable(r, did, Best(bids).value);
    }
  }

  lemma {:induction false} NobodyAllowed(bids: seq<Bid>, connected: string -> bool)
    ensures FilterAllowed(bids, [], connected) == []
  {
    if bids != [] {
      NobodyAllowed(bids[1..], connected);
    }
  }

  /** No further bid can change the winner. */
  ghost predicate Final(r: Request, connected: string -> bool, bids: seq<Bid>) {
    forall later :: Winner(r, connected, bids + later) == Winner(r, connected, bids)
  }

  /** Collecting may stop without risk exactly when the preferred provider's bid counts, when nobody is
      allowed, or when the filter bars the preferred provider and the winner is unbeatable. A preferred
      bid that is only there, without covering the requirements or without being allowed, still leaves
      the outcome open. */
  lemma EarlyCloseExactly(r: Request, connected: string -> bool, bids: seq<Bid>)
    ensures Final(r, connected, bids)
            <==> PreferredCounts(r, connected, bids) || r.allowed == Some([])
                 || (!PreferredAllowed(r) && Winner(r, connected, bids).Some?
                     && Unbeatable(Winner(r, connected, bids).value))
  {
    if PreferredCounts(r, connected, bids) {
      forall later ensures Winner(r, connected, bids + later) == Winner(r, connected, bids) {
        EarlyCloseSafe(r, connected, bids, later);
      }
    } else if PreferredAllowed(r) {
      PreferredOpen(r, connected, bids);
    } else if r.allowed == Some([]) {
      forall later ensures Winner(r, connected, bids + later) == Winner(r, connected, bids) {
        NobodyAllowed(bids, connected);
        NobodyAllowed(bids + later, connected);
      }
    } else {
      BarredOpen(r, connected, bids);
    }
  }

  /** An allowed preferred provider whose bid does not count yet may still bid in full. */
  lemma PreferredOpen(r: Request, connected: string -> bool, bids: seq<Bid>)
    requires PreferredAllowed(r) && !PreferredCounts(r, connected, bids)
    ensures !Final(r, connected, bids) && r.allowed != Some([])
  {
    var top := TopBid(r, r.preferred.value);
    TopContends(r, connected, r.preferred.value);
    ContendersAppend(r, connected, bids, [top]);
    var contenders := Contenders(r, connected, bids);
    FirstFromAppend(contenders, [top], r.preferred.value);
    assert Winner(r, connected, bids + [top]) == Some(top);
    FirstFromExactly(contenders, r.preferred.value);
    if contenders != [] {
      var i := BestIsEarliest(contenders);
    }
    assert Winner(r, connected, bids) != Some(top);
  }

  /** When the preferred provider is barred, only an unbeatable winner is safe. */
  lemma BarredOpen(r: Request, connected: string -> bool, bids: seq<Bid>)
    requires !PreferredAllowed(r) && r.allowed != Some([])
    ensures Final(r, connected, bids)
            <==> Winner(r, connected, bids).Some? && Unbeatable(Winner(r, connected, bids).value)
  {
    var contenders := Contenders(r, connected, bids);
    BestWins(r, connected, bids);
    if Best(contenders).Some? && Unbeatable(Best(contenders).value) {
      forall later ensures Winner(r, connected, bids + later) == Winner(r, connected, bids) {
        BestWins(r, connected, bids + later);
        ContendersAppend(r, connected, bids, later);
        UnbeatableStays(contenders, Contenders(r, connected, later));
      }
    } else {
      var did := if r.allowed.None? then "" else r.allowed.value[0];
      TopContends(r, connected, did);
      ContendersAppend(r, connected, bids, [TopBid(r, did)]);
      BestWins(r, connected, bids + [TopBid(r, did)]);
      BestWithTop(r, contenders, did);
    }
  }

  const BARRED: Request := Request("m", ["ocr"], Some("preferred"), Some(["other"]))

  /** A window that closed on the bid of a preferred provider that is not allowed has no winner; the bid
      of the allowed provider that comes next would have won. */
  lemma BarredPreferredCloses(connected: string -> bool)
    ensures var early, later := TopBid(BARRED, "preferred"), TopBid(BARRED, "other");
            && HasBidOf([early], BARRED.preferred)
            && Winner(BARRED, connected, [early]) == None
            && Winner(BARRED, connected, [early, later]) == Some(later)
  {
    var early, later := TopBid(BARRED, "preferred"), TopBid(BARRED, "other");
    assert [early][0] == early && [early][1..] == [];
    assert Kept(BARRED, connected, [early]) == [] + FilterAllowed([], ["other"], connected);
    BestWins(BARRED, connected, [early]);
    BestWins(BARRED, connected, [early] + [later]);
    TopContends(BARRED, connected, "other");
    ContendersAppend(BARRED, connected, [early], [later]);
    BestWithTop(BARRED, [], "other");
    assert [early] + [later] == [early, later];
  }

  // ----- The collector -----

  datatype Window = Window(bids: seq<Bid>, preferred: Option<string>)

  /** Every window after `bids` are delivered in order; a bid without a window is dropped. */
  function Delivered(open: map<string, Window>, bids: seq<Bid>): map<string, Window> {
    if bids == [] then open else Delivered(DeliverOne(open, bids[0]), bids[1..])
  }

  function DeliverOne(open: map<string, Window>, bid: Bid): map<string, Window> {
    if bid.missionId in open
    then open[bid.missionId := open[bid.missionId].(bids := open[bid.missionId].bids + [bid])]
    else open
  }

  function ForMission(id: string, bids: seq<Bid>): seq<Bid> {
    if bids == [] then []
    else (if bids[0].missionId == id then [bids[0]] else []) + ForMission(id, bids[1..])
  }

  function Flatten(batches: seq<seq<Bid>>): seq<Bid> {
    if batches == [] then [] else Flatten(batches[..|batches| - 1]) + batches[|batches| - 1]
  }

  lemma {:induction false} DeliveredCollects(open: map<string, Window>, bids: seq<Bid>, id: string)
    requires id in open
    ensures id in Delivered(open, bids)
    ensures Delivered(open, bids)[id] == open[id].(bids := open[id].bids + ForMission(id, bids))
  {
    if bids == [] {
      assert open[id].bids + [] == open[id].bids;
    } else {
      DeliveredCollects(DeliverOne(open, bids[0]), bids[1..], id);
      assert open[id].bids + ForMission(id, bids)
          == open[id].bids + (if bids[0].missionId == id then [bids[0]] else []) + ForMission(id, bids[1..]);
    }
  }

  lemma {:induction false} DeliveredAppend(open: map<string, Window>, a: seq<Bid>, b: seq<Bid>)
    ensures Delivered(open, a + b) == Delivered(Delivered(open, a), b)
  {
    if a == [] {
      assert a + b == b;
    } else {
      assert (a + b)[0] == a[0] && (a + b)[1..] == a[1..] + b;
      DeliveredAppend(DeliverOne(open, a[0]), a[1..], b);
    }
  }

  lemma {:induction false} ForMissionAppend(id: string, a: seq<Bid>, b: seq<Bid>)
    ensures ForMission(id, a + b) == ForMission(id, a) + ForMission(id, b)
  {
    if a == [] {
      assert a + b == b;
    } else {
      assert (a + b)[0] == a[0] && (a + b)[1..] == a[1..] + b;
      ForMissionAppend(id, a[1..], b);
    }
  }

  /** Collecting in batches stops on a prefix of what would arrive. */
  lemma {:induction false} FlattenPrefix(batches: seq<seq<Bid>>, n: nat)
    requires n <= |batches|
    ensures Flatten(batches[..n]) <= Flatten(batches)
  {
    if n < |batches| {
      var init := batches[..|batches| - 1];
      assert batches[..n] == init[..n];
      FlattenPrefix(init, n);
    } else {
      assert batches[..n] == batches;
    }
  }

  predicate HasBidOf(bids: seq<Bid>, preferred: Option<string>) {
    preferred.Some? && exists i :: 0 <= i < |bids| && bids[i].providerDid == preferred.value
  }

  class BidCollector {
    var open: map<string, Window>

    constructor ()
      ensures open == map[]
    {
      open := map[];
    }

    method Deliver(bid: Bid) returns (delivered: bool)
      modifies this
      ensures open == DeliverOne(old(open), bid) && (delivered <==> bid.missionId in old(open))
    {
      if bid.missionId in open {
        var window := open[bid.missionId];
        open := open[bid.missionId := window.(bids := window.bids + [bid])];
        return true;
      }
      return false;
    }

    method DeliverAll(bids: seq<Bid>)
      modifies this
      ensures open == Delivered(old(open), bids)
    {
      assert bids[0..] == bids;
      for i := 0 to |bids|
        invariant Delivered(open, bids[i..]) == Delivered(old(open), bids)
      {
        assert bids[i..][0] == bids[i] && bids[i..][1..] == bids[i + 1..];
        var _ := Deliver(bids[i]);
      }
      assert bids[|bids|..] == [];
    }

    /** `arrivals[i]` are the bids, of any mission, that other tasks deliver between two checks of the
        window; the deadline passes after the last of them, and `late` may still slip in before the
        window is removed. `checks` is how many batches had arrived when waiting stopped: all of them,
        unless a bid of the preferred provider was there, and then no more than it took. */
    method Collect(missionId: string, preferred: Option<string>, arrivals: seq<seq<Bid>>, late: seq<Bid>)
        returns (bids: seq<Bid>, checks: nat)
      modifies this
      ensures checks <= |arrivals|
      ensures bids == ForMission(missionId, Flatten(arrivals[..checks]) + late)
      ensures checks < |arrivals| ==> HasBidOf(ForMission(missionId, Flatten(arrivals[..checks])), preferred)
      ensures forall k :: 0 <= k < checks ==> !HasBidOf(ForMission(missionId, Flatten(arrivals[..k])), preferred)
      ensures open
              == Delivered(old(open)[missionId := Window([], preferred)], Flatten(arrivals[..checks]) + late)
                 - {missionId}
    {
      open := open[missionId := Window([], preferred)];
      ghost var start := open;
      checks := 0;
      while checks < |arrivals|
        invariant checks <= |arrivals|
        invariant open == Delivered(start, Flatten(arrivals[..checks]))
        invariant missionId in open
        invariant open[missionId] == Window(ForMission(missionId, Flatten(arrivals[..checks])), preferred)
        invariant forall k :: 0 <= k < checks ==> !HasBidOf(ForMission(missionId, Flatten(arrivals[..k])), preferred)
        decreases |arrivals| - checks
      {
        if HasBidOf(open[missionId].bids, open[missionId].preferred) {
          break;
        }
        assert arrivals[..checks + 1][..checks] == arrivals[..checks];
        DeliveredAppend(start, Flatten(arrivals[..checks]), arrivals[checks]);
        DeliverAll(arrivals[checks]);
        checks := checks + 1;
        DeliveredCollects(start, Flatten(arrivals[..checks]), missionId);
      }
      DeliveredAppend(start, Flatten(arrivals[..checks]), late);
      DeliverAll(late);
      DeliveredCollects(start, Flatten(arrivals[..checks]) + late, missionId);
      ForMissionAppend(missionId, Flatten(arrivals[..checks]), late);
      bids := open[missionId].bids;
      open := open - {missionId};
    }
  }

  lemma ForMissionPrefix(id: string, early: seq<Bid>, all: seq<Bid>) returns (later: seq<Bid>)
    requires early <= all
    ensures ForMission(id, all) == ForMission(id, early) + later
  {
    later := ForMission(id, all[|early|..]);
    assert all == early + all[|early|..];
    ForMissionAppend(id, early, all[|early|..]);
  }

  /** A window closed early on a preferred bid that counts has the winner the whole window would have. */
  lemma EarlyWinnerIsFinal(r: Request, connected: string -> bool, early: seq<Bid>, all: seq<Bid>)
    requires early <= all && PreferredCounts(r, connected, ForMission(r.missionId, early))
    ensures Winner(r, connected, ForMission(r.missionId, early)) == Winner(r, connected, ForMission(r.missionId, all))
  {
    var later := ForMissionPrefix(r.missionId, early, all);
    EarlyCloseSafe(r, connected, ForMission(r.missionId, early), later);
  }
}
