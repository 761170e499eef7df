/**
 The satellite's book of verified offers and assignments: a mission is executed only with an offer and
 an assignment of the connected navigator, in time, and once.
 */
module ProviderCore {
  import opened Wrappers

  const ASSIGNMENT_GRACE_MS: int := 60_000
  const MAX_REMEMBERED: nat := 64

  datatype VerifiedOffer = VerifiedOffer(missionId: string, navigatorDid: string, timestamp: int, bidDeadlineMs: int)

  datatype VerifiedAssign = VerifiedAssign(missionId: string, navigatorDid: string, assignedProvider: string,
    timestamp: int)

  /** The bidding deadline comes relative to the offer or as an absolute time; larger numbers are times. */
  function OfferDeadline(offer: VerifiedOffer): int {
    if offer.bidDeadlineMs > 1_000_000_000_000 then offer.bidDeadlineMs else offer.timestamp + offer.bidDeadlineMs
  }

  datatype Refusal = AlreadyServed | NoOffer | NoAssignment | OfferOfAnother | AssignmentByAnother | AssignedToAnother
    | Expired

  datatype Authorization = Authorized | Refused(reason: Refusal)

  // ----- A JavaScript Map -----

  /** Entries in order of first insertion: setting a key that is present keeps its place. */
  datatype JsMap<V> = JsMap(keys: seq<string>, values: map<string, V>) {
    ghost predicate Valid() {
      (forall i, j :: 0 <= i < j < |keys| ==> keys[i] != keys[j]) && (forall k :: k in keys <==> k in values)
    }

    function Set(key: string, value: V): JsMap<V> {
      JsMap(if key in values then keys else keys + [key], values[key := value])
    }

    function DeleteFirst(): JsMap<V>
      requires keys != []
    {
      JsMap(keys[1..], values - {keys[0]})
    }
  }

  function EmptyMap<V>(): JsMap<V> { JsMap([], map[]) }

  function Remember<V>(m: JsMap<V>, key: string, value: V): JsMap<V> {
    Evict(m.Set(key, value))
  }

  function Evict<V>(m: JsMap<V>): JsMap<V>
    decreases |m.keys|
  {
    if |m.keys| > MAX_REMEMBERED then Evict(m.DeleteFirst()) else m
  }

  // ----- The book -----

  datatype Book = Book(offers: JsMap<VerifiedOffer>, assigns: JsMap<VerifiedAssign>, used: set<string>)

  function EmptyBook(): Book { Book(EmptyMap(), EmptyMap(), {}) }

  datatype Call =
    | RecordOffer(offer: VerifiedOffer)
    | RecordAssign(assign: VerifiedAssign)
    | Consume(missionId: string, navigator: string, now: int)

  function Authorize(own: string, b: Book, missionId: string, navigator: string, now: int): Authorization {
    if missionId in b.used then Refused(AlreadyServed)
    else if missionId !in b.offers.values then Refused(NoOffer)
    else if missionId !in b.assigns.values then Refused(NoAssignment)
    else
      var offer, assign := b.offers.values[missionId], b.assigns.values[missionId];
      if offer.navigatorDid != navigator then Refused(OfferOfAnother)
      else if assign.navigatorDid != offer.navigatorDid then Refused(AssignmentByAnother)
      else if assign.assignedProvider != own then Refused(AssignedToAnother)
      else if now > OfferDeadline(offer) + ASSIGNMENT_GRACE_MS then Refused(Expired)
      else Authorized
  }

  function Step(own: string, b: Book, call: Call): Book {
    match call
    case RecordOffer(o) => b.(offers := Remember(b.offers, o.missionId, o))
    case RecordAssign(a) => if a.assignedProvider != own then b else b.(assigns := Remember(b.assigns, a.missionId, a))
    case Consume(id, nav, now) => if Authorize(own, b, id, nav, now) == Authorized then b.(used := b.used + {id}) else b
  }

  /** The book after a history of calls. */
  function Run(own: string, calls: seq<Call>): Book {
    if calls == [] then EmptyBook() else Step(own, Run(own, calls[..|calls| - 1]), calls[|calls| - 1])
  }

  class AssignmentBook {
    const ownDid: string
    var offers: JsMap<VerifiedOffer>
    var assigns: JsMap<VerifiedAssign>
    var used: set<string>
    /** Every call so far. */
    ghost var history: seq<Call>

    ghost predicate Valid() reads this {
      Book(offers, assigns, used) == Run(ownDid, history)
    }

    constructor (ownDid: string)
      ensures this.ownDid == ownDid && history == [] && Valid()
    {
      this.ownDid := ownDid;
      offers, assigns, used, history := EmptyMap(), EmptyMap(), {}, [];
    }

    /** Set, then drop the oldest entries above the limit. */
    method RememberIn<V>(m: JsMap<V>, key: string, value: V) returns (r: JsMap<V>)
      ensures r == Remember(m, key, value)
    {
      r := m.Set(key, value);
      while |r.keys| > MAX_REMEMBERED
        invariant Evict(r) == Remember(m, key, value)
        decreases |r.keys|
      {
        r := r.DeleteFirst();
      }
    }

    method RecordOffer(offer: VerifiedOffer)
      requires Valid()
      modifies this
      ensures Valid() && history == old(history) + [Call.RecordOffer(offer)]
    {
      offers := RememberIn(offers, offer.missionId, offer);
      Record(Call.RecordOffer(offer));
    }

    method RecordAssign(assign: VerifiedAssign)
      requires Valid()
      modifies this
      ensures Valid() && history == old(history) + [Call.RecordAssign(assign)]
    {
      if assign.assignedProvider == ownDid {
        assigns := RememberIn(assigns, assign.missionId, assign);
      }
      Record(Call.RecordAssign(assign));
    }

    method Consume(missionId: string, connectedNavigatorDid: string, now: int) returns (r: Authorization)
      requires Valid()
      modifies this
      ensures Valid() && history == old(history) + [Call.Consume(missionId, connectedNavigatorDid, now)]
      ensures r == Authorize(ownDid, Run(ownDid, old(history)), missionId, connectedNavigatorDid, now)
    {
      r := Check(missionId, connectedNavigatorDid, now);
      if r == Authorized {
        used := used + {missionId};
      }
      Record(Call.Consume(missionId, connectedNavigatorDid, now));
    }

    /** The checks of `consume`, in order. */
    method Check(missionId: string, connectedNavigatorDid: string, now: int) returns (r: Authorization)
      ensures r == Authorize(ownDid, Book(offers, assigns, used), missionId, connectedNavigatorDid, now)
    {
      if missionId in used { return Refused(AlreadyServed); }
      if missionId !in offers.values { return Refused(NoOffer); }
      if missionId !in assigns.values { return Refused(NoAssignment); }
      var offer, assign := offers.values[missionId], assigns.values[missionId];
      if offer.navigatorDid != connectedNavigatorDid { return Refused(OfferOfAnother); }
      if assign.navigatorDid != offer.navigatorDid { return Refused(AssignmentByAnother); }
      if assign.assignedProvider != ownDid { return Refused(AssignedToAnother); }
      if now > OfferDeadline(offer) + ASSIGNMENT_GRACE_MS { return Refused(Expired); }
      return Authorized;
    }

    ghost method Record(call: Call)
      requires Book(offers, assigns, used) == Step(ownDid, Run(ownDid, history), call)
      modifies this`history
      ensures Valid() && history == old(history) + [call]
    {
      history := history + [call];
      assert history[..|history| - 1] == old(history);
    }
  }

  // ----- What a bounded map holds after a history -----

  /** A bounded map after values were recorded one by one. */
  function Remembered<V>(h: seq<(string, V)>): JsMap<V> {
    if h == [] then EmptyMap()
    else
      var last := h[|h| - 1];
      Remember(Remembered(h[..|h| - 1]), last.0, last.1)
  }

  /** Keys in the order they entered, once for every time they did: a key enters when it is recorded and
      is not among the 64 that entered last. */
  ghost function Entered<V>(h: seq<(string, V)>): seq<string> {
    if h == [] then []
    else
      var init, key := h[..|h| - 1], h[|h| - 1].0;
      if key in Last64(Entered(init)) then Entered(init) else Entered(init) + [key]
  }

  /** The value recorded last for `key`. */
  ghost function Latest<V>(h: seq<(string, V)>, key: string): Option<V> {
    if h == [] then None
    else if h[|h| - 1].0 == key then Some(h[|h| - 1].1)
    else Latest(h[..|h| - 1], key)
  }

  function Last64(s: seq<string>): seq<string> {
    if |s| > 64 then s[|s| - 64..] else s
  }

  lemma SetValid<V>(m: JsMap<V>, key: string, value: V)
    requires m.Valid()
    ensures m.Set(key, value).Valid()
  {
  }

  lemma EvictOne<V>(m: JsMap<V>)
    requires m.Valid() && |m.keys| <= MAX_REMEMBERED + 1
    ensures Evict(m).Valid() && Evict(m).keys == Last64(m.keys)
    ensures forall k :: k in Evict(m).values ==> k in m.values && Evict(m).values[k] == m.values[k]
  {
    if |m.keys| > MAX_REMEMBERED {
      assert Evict(m) == m.DeleteFirst();
    }
  }

  lemma Last64Snoc(s: seq<string>, key: string)
    ensures Last64(Last64(s) + [key]) == Last64(s + [key])
  {
  }

  /** The map holds the 64 keys that entered last, in order of entry, each with the value recorded last. */
  lemma {:induction false} RememberedHolds<V>(h: seq<(string, V)>)
    ensures Remembered(h).Valid()
    ensures |Remembered(h).keys| <= 64
    ensures Remembered(h).keys == Last64(Entered(h))
    ensures forall k :: k in Remembered(h).values ==> Latest(h, k) == Some(Remembered(h).values[k])
  {
    if h != [] {
      var init := h[..|h| - 1];
      var (key, value) := h[|h| - 1];
      RememberedHolds(init);
      SetValid(Remembered(init), key, value);
      EvictOne(Remembered(init).Set(key, value));
      Last64Snoc(Entered(init), key);
    }
  }

  // ----- Histories -----

  /** The offers recorded in a history, and the assignments to this provider. */
  function OfferRecords(calls: seq<Call>): seq<(string, VerifiedOffer)> {
    if calls == [] then []
    else
      var init, last := calls[..|calls| - 1], calls[|calls| - 1];
      OfferRecords(init) + (if last.RecordOffer? then [(last.offer.missionId, last.offer)] else [])
  }

  function AssignRecords(own: string, calls: seq<Call>): seq<(string, VerifiedAssign)> {
    if calls == [] then []
    else
      var init, last := calls[..|calls| - 1], calls[|calls| - 1];
      AssignRecords(own, init)
      + (if last.RecordAssign? && last.assign.assignedProvider == own then [(last.assign.missionId, last.assign)]
          else [])
  }

  /** The `i`-th call consumed a mission. */
  ghost predicate Served(own: string, calls: seq<Call>, i: nat, missionId: string) {
    i < |calls| && calls[i].Consume? && calls[i].missionId == missionId
    && Authorize(own, Run(own, calls[..i]), missionId, calls[i].navigator, calls[i].now) == Authorized
  }

  ghost predicate EverServed(own: string, calls: seq<Call>, missionId: string) {
    exists i: nat :: Served(own, calls, i, missionId)
  }

  lemma RememberedSnoc<V>(h: seq<(string, V)>, key: string, value: V)
    ensures Remembered(h + [(key, value)]) == Remember(Remembered(h), key, value)
  {
    assert (h + [(key, value)])[..|h|] == h;
  }

  /** Both maps of the book are bounded memories of what was recorded. */
  lemma RunIsHistory(own: string, calls: seq<Call>)
    ensures Run(own, calls).offers == Remembered(OfferRecords(calls))
    ensures Run(own, calls).assigns == Remembered(AssignRecords(own, calls))
  {
    OffersAreHistory(own, calls);
    AssignsAreHistory(own, calls);
  }

  lemma {:induction false} OffersAreHistory(own: string, calls: seq<Call>)
    ensures Run(own, calls).offers == Remembered(OfferRecords(calls))
  {
    if calls != [] {
      var init, last := calls[..|calls| - 1], calls[|calls| - 1];
      OffersAreHistory(own, init);
      if last.RecordOffer? {
        RememberedSnoc(OfferRecords(init), last.offer.missionId, last.offer);
      } else {
        assert OfferRecords(calls) == OfferRecords(init);
        assert Run(own, calls).offers == Run(own, init).offers;
      }
    }
  }

  lemma {:induction false} AssignsAreHistory(own: string, calls: seq<Call>)
    ensures Run(own, calls).assigns == Remembered(AssignRecords(own, calls))
  {
    if calls != [] {
      var init, last := calls[..|calls| - 1], calls[|calls| - 1];
      AssignsAreHistory(own, init);
      if last.RecordAssign? && last.assign.assignedProvider == own {
        RememberedSnoc(AssignRecords(own, init), last.assign.missionId, last.assign);
      } else {
        assert AssignRecords(own, calls) == AssignRecords(own, init);
        assert Run(own, calls).assigns == Run(own, init).assigns;
      }
    }
  }

  lemma ServedPrefix(own: string, calls: seq<Call>, n: nat, i: nat, id: string)
    requires i < n <= |calls|
    ensures Served(own, calls[..n], i, id) <==> Served(own, calls, i, id)
  {
    assert calls[..n][..i] == calls[..i];
  }

  lemma EverServedSnoc(own: string, calls: seq<Call>, id: string)
    requires calls != []
    ensures EverServed(own, calls, id)
            <==> EverServed(own, calls[..|calls| - 1], id) || Served(own, calls, |calls| - 1, id)
  {
    var n := |calls| - 1;
    forall i: nat | i < n ensures Served(own, calls[..n], i, id) <==> Served(own, calls, i, id) {
      ServedPrefix(own, calls, n, i, id);
    }
    if EverServed(own, calls[..n], id) {
      var i: nat :| Served(own, calls[..n], i, id);
      assert Served(own, calls, i, id);
    }
  }

  lemma UsedSnoc(own: string, calls: seq<Call>, id: string)
    requires calls != []
    ensures id in Run(own, calls).used
            <==> id in Run(own, calls[..|calls| - 1]).used || Served(own, calls, |calls| - 1, id)
  {
  }

  /** The used ids are those of the calls that succeeded. */
  lemma {:induction false} UsedAreServed(own: string, calls: seq<Call>, id: string)
    ensures id in Run(own, calls).used <==> EverServed(own, calls, id)
  {
    if calls != [] {
      UsedAreServed(own, calls[..|calls| - 1], id);
      UsedSnoc(own, calls, id);
      EverServedSnoc(own, calls, id);
    }
  }

  // ----- Main results -----

  /** A mission id is consumed at most once in any history. */
  lemma ServedOnce(own: string, calls: seq<Call>, i: nat, j: nat, id: string)
    requires Served(own, calls, i, id) && Served(own, calls, j, id)
    ensures i == j
  {
    var first, second := if i < j then i else j, if i < j then j else i;
    if first < second {
      ServedPrefix(own, calls, second, first, id);
      UsedAreServed(own, calls[..second], id);
    }
  }

  lemma {:induction false} LatestOffer(calls: seq<Call>, id: string)
    requires Latest(OfferRecords(calls), id).Some?
    ensures exists j :: 0 <= j < |calls| && calls[j] == RecordOffer(Latest(OfferRecords(calls), id).value)
    ensures Latest(OfferRecords(calls), id).value.missionId == id
    decreases |calls|
  {
    var n := |calls| - 1;
    var init, records := calls[..n], OfferRecords(calls);
    if calls[n].RecordOffer? {
      assert records[..|records| - 1] == OfferRecords(init);
      if calls[n].offer.missionId != id {
        LatestOffer(init, id);
        var j :| 0 <= j < |init| && init[j] == RecordOffer(Latest(OfferRecords(init), id).value);
        assert calls[j] == init[j];
      }
    } else {
      assert records == OfferRecords(init);
      LatestOffer(init, id);
      var j :| 0 <= j < |init| && init[j] == RecordOffer(Latest(OfferRecords(init), id).value);
      assert calls[j] == init[j];
    }
  }

  lemma {:induction false} LatestAssign(own: string, calls: seq<Call>, id: string)
    requires Latest(AssignRecords(own, calls), id).Some?
    ensures exists j :: 0 <= j < |calls| && calls[j] == RecordAssign(Latest(AssignRecords(own, calls), id).value)
    ensures Latest(AssignRecords(own, calls), id).value.missionId == id
    ensures Latest(AssignRecords(own, calls), id).value.assignedProvider == own
    decreases |calls|
  {
    var n := |calls| - 1;
    var init, records := calls[..n], AssignRecords(own, calls);
    if calls[n].RecordAssign? && calls[n].assign.assignedProvider == own {
      assert records[..|records| - 1] == AssignRecords(own, init);
      if calls[n].assign.missionId != id {
        LatestAssign(own, init, id);
        var j :| 0 <= j < |init| && init[j] == RecordAssign(Latest(AssignRecords(own, init), id).value);
        assert calls[j] == init[j];
      }
    } else {
      assert records == AssignRecords(own, init);
      LatestAssign(own, init, id);
      var j :| 0 <= j < |init| && init[j] == RecordAssign(Latest(AssignRecords(own, init), id).value);
      assert calls[j] == init[j];
    }
  }

  // ----- Deadlines -----

  /** In time for an offer made at `timestamp`: up to 10^12 its deadline counts from there, above that it is
      a time itself, and a minute of grace is given. */
  predicate InTime(timestamp: int, deadline: int, now: int) {
    (deadline <= 1_000_000_000_000 ==> now - timestamp <= deadline + 60_000)
    && (deadline > 1_000_000_000_000 ==> now <= deadline + 60_000)
  }

  lemma InTimeExactly(offer: VerifiedOffer, now: int)
    ensures now <= OfferDeadline(offer) + ASSIGNMENT_GRACE_MS <==> InTime(offer.timestamp, offer.bidDeadlineMs, now)
  {
  }

  /** The book with the deadline of an offer written the other way: as a time. */
  function Absolute(b: Book, id: string): Book
    requires id in b.offers.values
  {
    var offer := b.offers.values[id];
    var absolute := offer.(bidDeadlineMs := offer.timestamp + offer.bidDeadlineMs);
    b.(offers := JsMap(b.offers.keys, b.offers.values[id := absolute]))
  }

  /** The relative and the absolute form of one deadline authorize the same calls exactly when the deadline
      is after 10^12, in September 2001, or the offer was made at the epoch. */
  lemma FormsAgreeExactly(own: string, b: Book, id: string, navigator: string)
    requires id in b.offers.values && id in b.assigns.values && id !in b.used
    requires b.offers.values[id].navigatorDid == navigator == b.assigns.values[id].navigatorDid
    requires b.assigns.values[id].assignedProvider == own && b.offers.values[id].bidDeadlineMs <= 1_000_000_000_000
    ensures (forall now :: Authorize(own, Absolute(b, id), id, navigator, now) == Authorize(own, b, id, navigator, now))
            <==> var offer := b.offers.values[id];
                 offer.timestamp + offer.bidDeadlineMs > 1_000_000_000_000 || offer.timestamp == 0
  {
    var offer := b.offers.values[id];
    var until := offer.timestamp + offer.bidDeadlineMs;
    if until <= 1_000_000_000_000 && offer.timestamp != 0 {
      var now := (if offer.timestamp > 0 then until + offer.timestamp else until) + 60_000;
      assert Authorize(own, Absolute(b, id), id, navigator, now) != Authorize(own, b, id, navigator, now);
    }
  }

  /** The offer that justifies a consumption: the last one recorded, still among the 64 remembered. */
  ghost predicate Justified(own: string, calls: seq<Call>, id: string, navigator: string, now: int,
                            offer: VerifiedOffer, assign: VerifiedAssign) {
    && Latest(OfferRecords(calls), id) == Some(offer) && id in Last64(Entered(OfferRecords(calls)))
    && Latest(AssignRecords(own, calls), id) == Some(assign) && id in Last64(Entered(AssignRecords(own, calls)))
    && offer.navigatorDid == navigator && assign.navigatorDid == navigator && assign.assignedProvider == own
    && InTime(offer.timestamp, offer.bidDeadlineMs, now)
  }

  /** After any history, a mission may be consumed exactly when it has not been, and its last recorded
      offer and assignment are still remembered, come from the connected navigator and are in time. */
  lemma ConsumeExactly(own: string, calls: seq<Call>, id: string, navigator: string, now: int)
    ensures Authorize(own, Run(own, calls), id, navigator, now) == Authorized
            <==> !EverServed(own, calls, id)
                 && exists offer, assign :: Justified(own, calls, id, navigator, now, offer, assign)
  {
    var b := Run(own, calls);
    RunIsHistory(own, calls);
    UsedAreServed(own, calls, id);
    RememberedHolds(OfferRecords(calls));
    RememberedHolds(AssignRecords(own, calls));
    if Authorize(own, b, id, navigator, now) == Authorized {
      assert Justified(own, calls, id, navigator, now, b.offers.values[id], b.assigns.values[id]);
    }
  }

  /** The offer recorded last for the mission, if it is among the 64 remembered. */
  ghost function RememberedOffer(calls: seq<Call>, id: string): Option<VerifiedOffer> {
    if id in Last64(Entered(OfferRecords(calls))) then Latest(OfferRecords(calls), id) else None
  }

  ghost function RememberedAssign(own: string, calls: seq<Call>, id: string): Option<VerifiedAssign> {
    if id in Last64(Entered(AssignRecords(own, calls))) then Latest(AssignRecords(own, calls), id) else None
  }

  lemma BookIsRemembered(own: string, calls: seq<Call>, id: string)
    ensures var b := Run(own, calls);
            && RememberedOffer(calls, id) == (if id in b.offers.values then Some(b.offers.values[id]) else None)
            && RememberedAssign(own, calls, id) == (if id in b.assigns.values then Some(b.assigns.values[id]) else None)
            && (id in b.assigns.values ==> b.assigns.values[id].assignedProvider == own)
  {
    RunIsHistory(own, calls);
    RememberedHolds(OfferRecords(calls));
    RememberedHolds(AssignRecords(own, calls));
    if id in Run(own, calls).assigns.values {
      LatestAssign(own, calls, id);
    }
    hide Run, Entered, Last64, Latest, OfferRecords, AssignRecords, Remembered;
  }

  /** Which reason a refusal has, after any history; that the assignment is another's is never one, because
      none such is recorded. */
  lemma RefusalExactly(own: string, calls: seq<Call>, id: string, navigator: string, now: int)
    ensures var r := Authorize(own, Run(own, calls), id, navigator, now);
            var offer, assign := RememberedOffer(calls, id), RememberedAssign(own, calls, id);
            && (r == Refused(AlreadyServed) <==> EverServed(own, calls, id))
            && (r == Refused(NoOffer) <==> !EverServed(own, calls, id) && offer == None)
            && (r == Refused(NoAssignment) <==> !EverServed(own, calls, id) && offer.Some? && assign == None)
            && (r == Refused(OfferOfAnother)
                <==> !EverServed(own, calls, id) && offer.Some? && assign.Some?
                     && offer.value.navigatorDid != navigator)
            && (r == Refused(AssignmentByAnother)
                <==> !EverServed(own, calls, id) && offer.Some? && assign.Some? && offer.value.navigatorDid == navigator
                     && assign.value.navigatorDid != navigator)
            && (r == Refused(Expired)
                <==> !EverServed(own, calls, id) && offer.Some? && assign.Some?
                     && offer.value.navigatorDid == navigator == assign.value.navigatorDid
                     && !InTime(offer.value.timestamp, offer.value.bidDeadlineMs, now))
            && r != Refused(AssignedToAnother)
  {
    hide InTime, Run, RememberedOffer, RememberedAssign, EverServed, OfferDeadline;
    BookIsRemembered(own, calls, id);
    UsedAreServed(own, calls, id);
    if RememberedOffer(calls, id).Some? {
      InTimeExactly(RememberedOffer(calls, id).value, now);
    }
  }

  /** Every consumption was preceded by the offer and the assignment that justify it. */
  lemma ServedWasOffered(own: string, calls: seq<Call>, i: nat, id: string)
    requires Served(own, calls, i, id)
    ensures exists j, offer :: 0 <= j < i && calls[j] == RecordOffer(offer)
              && offer.missionId == id && offer.navigatorDid == calls[i].navigator
              && InTime(offer.timestamp, offer.bidDeadlineMs, calls[i].now)
    ensures exists j, assign :: 0 <= j < i && calls[j] == RecordAssign(assign)
              && assign.missionId == id && assign.navigatorDid == calls[i].navigator && assign.assignedProvider == own
  {
    var before := calls[..i];
    ConsumeExactly(own, before, id, calls[i].navigator, calls[i].now);
    var offer, assign :| Justified(own, before, id, calls[i].navigator, calls[i].now, offer, assign);
    LatestOffer(before, id);
    LatestAssign(own, before, id);
    var j :| 0 <= j < |before| && before[j] == RecordOffer(offer);
    var k :| 0 <= k < |before| && before[k] == RecordAssign(assign);
    assert calls[j] == RecordOffer(offer) && calls[k] == RecordAssign(assign);
  }
}
