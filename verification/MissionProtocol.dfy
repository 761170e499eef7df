/**
 The mission protocol as a transition system: navigators offer, satellites bid, the navigator assigns
 the winner and the satellite executes. Published messages stay in a pool from which they may be
 received late, many times or never; anyone outside the protocol may publish what they can sign.
 */
module MissionProtocol {
  import opened Wrappers
  import BidSelection
  import opened ProviderCore

  type Did = string
  type MissionId = string
  type Bid = BidSelection.Bid

  const CAPABILITY := "math.arithmetic.solve"
  const MAX_ACTIVE: nat := 2

  datatype Message =
    | Offer(missionId: MissionId, navigator: Did, missionType: string, required: seq<string>, deadline: int,
        timestamp: int)
    | Bidding(bid: Bid)
    | Assign(missionId: MissionId, navigator: Did, provider: Did, timestamp: int)
  {
    /** The DID whose signature the message carries. */
    function Signer(): Did {
      match this
      case Offer(_, n, _, _, _, _) => n
      case Bidding(b) => b.providerDid
      case Assign(_, n, _, _) => n
    }
  }

  /** One mission cycle of a navigator. */
  datatype Cycle =
    | Collecting(request: BidSelection.Request, bids: seq<Bid>)
    | Closed(request: BidSelection.Request, winner: Option<Bid>)

  datatype Satellite = Satellite(
    navigator: Option<Did>, book: Book, bidded: set<MissionId>, verifying: set<Message>,
    streams: map<nat, Did>, active: nat)

  /** What happened, in order. */
  datatype Event =
    | Offered(navigator: Did, missionId: MissionId, required: seq<string>, deadline: int, timestamp: int)
    | BidSent(satellite: Did, missionId: MissionId, offered: seq<string>)
    | Assigned(navigator: Did, missionId: MissionId, satellite: Did)
    | Executed(satellite: Did, navigator: Did, missionId: MissionId, now: int)

  /** `m` passes verification whenever `n` does: the signature of an offer leaves out the required
      capabilities, and that of a bid leaves out the terms it is ranked by. */
  ghost predicate SameSigned(m: Message, n: Message) {
    match (m, n)
    case (Offer(id, v, kind, _, deadline, t), Offer(id2, v2, kind2, _, deadline2, t2)) =>
      id == id2 && v == v2 && kind == kind2 && deadline == deadline2 && t == t2
    case (Bidding(b), Bidding(b2)) =>
      b.missionId == b2.missionId && b.providerDid == b2.providerDid && SameCapabilities(b.offered, b2.offered)
    case _ => m == n
  }

  ghost predicate SameCapabilities(a: seq<string>, b: seq<string>) {
    forall c :: c in a <==> c in b
  }

  /** The parties that follow the protocol. */
  datatype Parties = Parties(navigators: set<Did>, satellites: set<Did>)

  datatype State = State(
    soup: set<Message>, cycles: map<(Did, MissionId), Cycle>, satellites: map<Did, Satellite>, log: seq<Event>)

  datatype Step =
    | StartMission(navigator: Did, request: BidSelection.Request, missionType: string, deadline: int, timestamp: int)
    | ReceiveBid(navigator: Did, bid: Bid)
    | CloseWindow(navigator: Did, missionId: MissionId, connected: set<Did>, timestamp: int)
    | LearnNavigator(satellite: Did, navigator: Did)
    | OfferArrives(satellite: Did, message: Message)
    | OfferVerified(satellite: Did, message: Message, accepting: bool, reachable: bool)
    | AssignArrives(satellite: Did, message: Message)
    | AssignVerified(satellite: Did, message: Message)
    | OpenStream(satellite: Did, stream: nat)
    | ToolCall(satellite: Did, stream: nat, missionId: MissionId, now: int)
    | Finish(satellite: Did)
    | Publish(message: Message)

  function IdleSatellite(): Satellite {
    Satellite(None, EmptyBook(), {}, {}, map[], 0)
  }

  function Init(p: Parties): State {
    State({}, map[], map d | d in p.satellites :: IdleSatellite(), [])
  }

  /** The bid the satellite publishes for a mission. */
  function OwnBid(satellite: Did, id: MissionId): Bid {
    BidSelection.Bid(id, satellite, [], [CAPABILITY], "community", 0x3F00_0000, 200)
  }

  function ToOffer(m: Message): VerifiedOffer
    requires m.Offer?
  {
    VerifiedOffer(m.missionId, m.navigator, m.timestamp, m.deadline)
  }

  function ToAssign(m: Message): VerifiedAssign
    requires m.Assign?
  {
    VerifiedAssign(m.missionId, m.navigator, m.provider, m.timestamp)
  }

  predicate CanServe(m: Message)
    requires m.Offer?
  {
    m.missionType == "tool_call" && |m.required| > 0
    && forall i :: 0 <= i < |m.required| ==> m.required[i] == CAPABILITY
  }

  /** When a step may be taken. */
  ghost predicate Enabled(p: Parties, s: State, step: Step) {
    match step
    case StartMission(n, r, _, _, _) => n in p.navigators && (n, r.missionId) !in s.cycles
    case ReceiveBid(n, b) =>
      Bidding(b) in s.soup && (n, b.missionId) in s.cycles && s.cycles[(n, b.missionId)].Collecting?
    case CloseWindow(n, id, _, _) => (n, id) in s.cycles && s.cycles[(n, id)].Collecting?
    case LearnNavigator(d, _) => d in s.satellites
    case OfferArrives(d, m) =>
      d in s.satellites && m in s.soup && m.Offer? && s.satellites[d].navigator == Some(m.navigator)
          && m.missionId != ""
    case OfferVerified(d, m, _, _) => d in s.satellites && m in s.satellites[d].verifying && m.Offer?
    case AssignArrives(d, m) =>
      d in s.satellites && m in s.soup && m.Assign? && m.provider == d && s.satellites[d].navigator == Some(m.navigator)
    case AssignVerified(d, m) => d in s.satellites && m in s.satellites[d].verifying && m.Assign?
    case OpenStream(d, i) =>
      d in s.satellites && s.satellites[d].navigator.Some? && i !in s.satellites[d].streams
    case ToolCall(d, i, _, _) => d in s.satellites && i in s.satellites[d].streams
    case Finish(d) => d in s.satellites && s.satellites[d].active > 0
    case Publish(m) =>
      (m.Signer() !in p.navigators && m.Signer() !in p.satellites) || exists n :: n in s.soup && SameSigned(m, n)
  }

  ghost function Apply(p: Parties, s: State, step: Step): State
    requires Enabled(p, s, step)
  {
    match step
    case StartMission(n, r, kind, deadline, t) =>
      var offer := Offer(r.missionId, n, kind, r.required, deadline, t);
      s.(soup := s.soup + {offer},
         cycles := s.cycles[(n, r.missionId) := Collecting(r, [])],
         log := s.log + [Offered(n, r.missionId, r.required, deadline, t)])
    case ReceiveBid(n, b) =>
      var cycle := s.cycles[(n, b.missionId)];
      s.(cycles := s.cycles[(n, b.missionId) := Collecting(cycle.request, cycle.bids + [b])])
    case CloseWindow(n, id, connected, t) =>
      var cycle := s.cycles[(n, id)];
      var winner := BidSelection.Winner(cycle.request, (d: Did) => d in connected, cycle.bids);
      var closed := s.(cycles := s.cycles[(n, id) := Closed(cycle.request, winner)]);
      if winner.None? then closed
      else closed.(soup := s.soup + {Assign(id, n, winner.value.providerDid, t)},
                   log := s.log + [Assigned(n, id, winner.value.providerDid)])
    case LearnNavigator(d, n) => WithSatellite(s, d, s.satellites[d].(navigator := Some(n)))
    case OfferArrives(d, m) => WithSatellite(s, d, s.satellites[d].(verifying := s.satellites[d].verifying + {m}))
    case AssignArrives(d, m) => WithSatellite(s, d, s.satellites[d].(verifying := s.satellites[d].verifying + {m}))
    case OfferVerified(d, m, accepting, reachable) =>
      var sat := s.satellites[d];
      var recorded := sat.(book := ProviderCore.Step(d, sat.book, RecordOffer(ToOffer(m))),
          verifying := sat.verifying - {m});
      if !CanServe(m) || m.missionId in sat.bidded || !accepting || !reachable || sat.active >= MAX_ACTIVE
      then WithSatellite(s, d, recorded)
      else
        WithSatellite(s, d, recorded.(bidded := sat.bidded + {m.missionId})).(
          soup := s.soup + {Bidding(OwnBid(d, m.missionId))},
          log := s.log + [BidSent(d, m.missionId, [CAPABILITY])])
    case AssignVerified(d, m) =>
      var sat := s.satellites[d];
      WithSatellite(s, d, sat.(book := ProviderCore.Step(d, sat.book, RecordAssign(ToAssign(m))),
          verifying := sat.verifying - {m}))
    case OpenStream(d, i) =>
      var sat := s.satellites[d];
      WithSatellite(s, d, sat.(streams := sat.streams[i := sat.navigator.value]))
    case ToolCall(d, i, id, now) =>
      var sat := s.satellites[d];
      var n := sat.streams[i];
      var after := sat.(book := ProviderCore.Step(d, sat.book, Consume(id, n, now)), streams := sat.streams - {i});
      if Authorize(d, sat.book, id, n, now) == Authorized
      then WithSatellite(s, d, after.(active := sat.active + 1)).(log := s.log + [Executed(d, n, id, now)])
      else WithSatellite(s, d, after)
    case Finish(d) => WithSatellite(s, d, s.satellites[d].(active := s.satellites[d].active - 1))
    case Publish(m) => s.(soup := s.soup + {m})
  }

  function WithSatellite(s: State, d: Did, sat: Satellite): State {
    s.(satellites := s.satellites[d := sat])
  }

  /** The state after a run of steps, or `None` when some step was not enabled. */
  ghost function Run(p: Parties, steps: seq<Step>): Option<State> {
    if steps == [] then Some(Init(p))
    else
      match Run(p, steps[..|steps| - 1])
      case None => None
      case Some(s) =>
        if Enabled(p, s, steps[|steps| - 1]) then Some(Apply(p, s, steps[|steps| - 1])) else None
  }

  // ----- What every step keeps -----

  /** An offer of an honest navigator was made by it, with that deadline. */
  ghost predicate OffersGenuine(p: Parties, s: State) {
    forall m :: m in s.soup && m.Offer? && m.navigator in p.navigators ==>
      LoggedOffer(s.log, m.navigator, m.missionId, m.deadline, m.timestamp)
  }

  ghost predicate LoggedOffer(log: seq<Event>, nav: Did, id: MissionId, deadline: int, timestamp: int) {
    exists i :: 0 <= i < |log| && log[i].Offered? && log[i].navigator == nav && log[i].missionId == id
        && log[i].deadline == deadline && log[i].timestamp == timestamp
  }

  /** An assignment of an honest navigator is the outcome of its cycle. */
  ghost predicate AssignsGenuine(p: Parties, s: State) {
    forall m :: m in s.soup && m.Assign? && m.navigator in p.navigators ==>
      && (m.navigator, m.missionId) in s.cycles && Won(s.cycles[(m.navigator, m.missionId)], m.provider)
      && Assigned(m.navigator, m.missionId, m.provider) in s.log
  }

  ghost predicate Won(c: Cycle, provider: Did) {
    c.Closed? && c.winner.Some? && c.winner.value.providerDid == provider
  }

  /** A bid of an honest satellite was sent by it. */
  ghost predicate BidsGenuine(p: Parties, s: State) {
    forall m :: m in s.soup && m.Bidding? && m.bid.providerDid in p.satellites ==>
      LoggedBid(s.log, m.bid.providerDid, m.bid.missionId, m.bid.offered)
  }

  ghost predicate LoggedBid(log: seq<Event>, sat: Did, id: MissionId, offered: seq<string>) {
    exists i :: 0 <= i < |log| && log[i].BidSent? && log[i].satellite == sat && log[i].missionId == id
      && SameCapabilities(offered, log[i].offered)
  }

  /** A cycle was offered with its requirements, and collects bids for its own mission. */
  ghost predicate CyclesSound(p: Parties, s: State) {
    forall key :: key in s.cycles ==> CycleSound(p, s, key)
  }

  ghost predicate CycleSound(p: Parties, s: State, key: (Did, MissionId))
    requires key in s.cycles
  {
    var c := s.cycles[key];
    && key.0 in p.navigators && c.request.missionId == key.1
    && WasOffered(s.log, |s.log|, key.0, key.1, c.request.required)
    && (c.Collecting? ==>
          forall i :: 0 <= i < |c.bids| ==> Bidding(c.bids[i]) in s.soup && c.bids[i].missionId == key.1)
  }

  /** Among the first `n` events, `nav` offered `id` with these requirements. */
  ghost predicate WasOffered(log: seq<Event>, n: nat, nav: Did, id: MissionId, required: seq<string>) {
    exists i :: 0 <= i < n && i < |log| && log[i].Offered? && log[i].navigator == nav && log[i].missionId == id
      && log[i].required == required
  }

  /** A satellite's book holds only published messages, the assignments addressed to it. */
  ghost predicate BooksSound(s: State) {
    forall d :: d in s.satellites ==> BookSound(s.soup, d, s.satellites[d])
  }

  ghost predicate BookSound(soup: set<Message>, d: Did, sat: Satellite) {
    && sat.verifying <= soup
    && (forall k :: k in sat.book.offers.values ==>
          sat.book.offers.values[k].missionId == k && OfferPublished(soup, sat.book.offers.values[k]))
    && (forall k :: k in sat.book.assigns.values ==>
          sat.book.assigns.values[k].missionId == k && AssignPublished(soup, sat.book.assigns.values[k]))
  }

  ghost predicate OfferPublished(soup: set<Message>, o: VerifiedOffer) {
    exists m :: m in soup && m.Offer? && ToOffer(m) == o
  }

  ghost predicate AssignPublished(soup: set<Message>, a: VerifiedAssign) {
    exists m :: m in soup && m.Assign? && ToAssign(m) == a
  }

  /** Executed missions are marked as used, so none is executed twice by one satellite. */
  ghost predicate ExecutionsUsed(s: State) {
    forall i :: 0 <= i < |s.log| && s.log[i].Executed? ==>
      s.log[i].satellite in s.satellites && s.log[i].missionId in s.satellites[s.log[i].satellite].book.used
  }

  ghost predicate SameExecution(a: Event, b: Event) {
    a.Executed? && b.Executed? && a.satellite == b.satellite && a.missionId == b.missionId
  }

  ghost predicate ExecutionsDistinct(log: seq<Event>) {
    forall i, j :: 0 <= i < j < |log| ==> !SameExecution(log[i], log[j])
  }

  /** Assignments are unique per mission: once one is logged, its cycle is closed with that winner. */
  ghost predicate AssignmentsClosed(s: State) {
    forall i :: 0 <= i < |s.log| && s.log[i].Assigned? ==>
      (s.log[i].navigator, s.log[i].missionId) in s.cycles
      && Won(s.cycles[(s.log[i].navigator, s.log[i].missionId)], s.log[i].satellite)
  }

  ghost predicate SameMission(a: Event, b: Event) {
    a.Assigned? && b.Assigned? && a.navigator == b.navigator && a.missionId == b.missionId
  }

  ghost predicate AssignmentsDistinct(log: seq<Event>) {
    forall i, j :: 0 <= i < j < |log| ==> !SameMission(log[i], log[j])
  }

  /** Event `i`, an assignment, was preceded by the offer and by a bid that covers what it required. */
  ghost predicate AssignmentCaused(p: Parties, log: seq<Event>, i: nat)
    requires i < |log| && log[i].Assigned?
  {
    exists required :: WasOffered(log, i, log[i].navigator, log[i].missionId, required)
      && (log[i].satellite in p.satellites ==> WasBid(log, i, log[i].satellite, log[i].missionId, required))
  }

  /** Among the first `n` events, `sat` bid for `id` with capabilities covering `required`. */
  ghost predicate WasBid(log: seq<Event>, n: nat, sat: Did, id: MissionId, required: seq<string>) {
    exists i :: 0 <= i < n && i < |log| && log[i].BidSent? && log[i].satellite == sat && log[i].missionId == id
      && forall q :: q in required ==> q in log[i].offered
  }

  /** Event `i`, an execution for an honest navigator, was preceded by its offer, in time, and by its
      assignment to this satellite. */
  ghost predicate ExecutionCaused(p: Parties, log: seq<Event>, i: nat)
    requires i < |log| && log[i].Executed?
  {
    log[i].navigator in p.navigators ==>
      && (exists j :: 0 <= j < i && log[j] == Assigned(log[i].navigator, log[i].missionId, log[i].satellite))
      && WasOfferedUntil(log, i, log[i].navigator, log[i].missionId, log[i].now)
  }

  ghost predicate WasOfferedUntil(log: seq<Event>, n: nat, nav: Did, id: MissionId, now: int) {
    exists i :: 0 <= i < n && i < |log| && log[i].Offered? && log[i].navigator == nav && log[i].missionId == id
      && InTime(log[i].timestamp, log[i].deadline, now)
  }

  ghost predicate Causal(p: Parties, log: seq<Event>) {
    forall i :: 0 <= i < |log| ==>
      (log[i].Assigned? ==> AssignmentCaused(p, log, i)) && (log[i].Executed? ==> ExecutionCaused(p, log, i))
  }

  ghost predicate Inv(p: Parties, s: State) {
    && s.satellites.Keys == p.satellites
    && OffersGenuine(p, s) && AssignsGenuine(p, s) && BidsGenuine(p, s)
    && CyclesSound(p, s) && BooksSound(s)
    && ExecutionsUsed(s) && ExecutionsDistinct(s.log)
    && AssignmentsClosed(s) && AssignmentsDistinct(s.log)
    && Causal(p, s.log)
  }

  // ----- Growing logs and pools -----

  lemma LoggedGrows(log: seq<Event>, e: Event)
    ensures forall nav, id, deadline, t ::
              LoggedOffer(log, nav, id, deadline, t) ==> LoggedOffer(log + [e], nav, id, deadline, t)
    ensures forall sat, id, offered :: LoggedBid(log, sat, id, offered) ==> LoggedBid(log + [e], sat, id, offered)
    ensures forall n, nav, id, req :: WasOffered(log, n, nav, id, req) ==> WasOffered(log + [e], n, nav, id, req)
    ensures forall n, sat, id, req :: WasBid(log, n, sat, id, req) ==> WasBid(log + [e], n, sat, id, req)
    ensures forall n, nav, id, now ::
              WasOfferedUntil(log, n, nav, id, now) ==> WasOfferedUntil(log + [e], n, nav, id, now)
  {
    var more := log + [e];
    assert forall i :: 0 <= i < |log| ==> more[i] == log[i];
  }

  lemma WasOfferedLater(log: seq<Event>, n: nat, m: nat, nav: Did, id: MissionId, required: seq<string>)
    requires n <= m && WasOffered(log, n, nav, id, required)
    ensures WasOffered(log, m, nav, id, required)
  {
  }

  /** An event may be appended to the log when it is the first of its kind and has its causes. */
  ghost predicate MayHappen(p: Parties, s: State, e: Event) {
    && (e.Executed? ==>
          && e.satellite in s.satellites && e.missionId in s.satellites[e.satellite].book.used
          && (forall i :: 0 <= i < |s.log| ==> !SameExecution(s.log[i], e))
          && ExecutionCaused(p, s.log + [e], |s.log|))
    && (e.Assigned? ==>
          && (e.navigator, e.missionId) in s.cycles && Won(s.cycles[(e.navigator, e.missionId)], e.satellite)
          && (forall i :: 0 <= i < |s.log| ==> !SameMission(s.log[i], e))
          && AssignmentCaused(p, s.log + [e], |s.log|))
  }

  lemma CausalGrows(p: Parties, log: seq<Event>, e: Event)
    requires Causal(p, log)
    requires e.Assigned? ==> AssignmentCaused(p, log + [e], |log|)
    requires e.Executed? ==> ExecutionCaused(p, log + [e], |log|)
    ensures Causal(p, log + [e])
  {
    var more := log + [e];
    LoggedGrows(log, e);
    forall i | 0 <= i < |more|
      ensures (more[i].Assigned? ==> AssignmentCaused(p, more, i))
              && (more[i].Executed? ==> ExecutionCaused(p, more, i))
    {
      if i < |log| {
        assert more[i] == log[i];
        if log[i].Assigned? {
          assert AssignmentCaused(p, log, i);
          var required :| WasOffered(log, i, log[i].navigator, log[i].missionId, required)
            && (log[i].satellite in p.satellites ==> WasBid(log, i, log[i].satellite, log[i].missionId, required));
          assert WasOffered(more, i, log[i].navigator, log[i].missionId, required);
        }
        if log[i].Executed? && log[i].navigator in p.navigators {
          assert ExecutionCaused(p, log, i);
          var j :| 0 <= j < i && log[j] == Assigned(log[i].navigator, log[i].missionId, log[i].satellite);
          assert more[j] == log[j];
        }
      }
    }
  }

  lemma LogKeeps(p: Parties, s: State, e: Event)
    requires Inv(p, s) && MayHappen(p, s, e)
    ensures Inv(p, s.(log := s.log + [e]))
  {
    var t := s.(log := s.log + [e]);
    LoggedGrows(s.log, e);
    CausalGrows(p, s.log, e);
    OnceGrows(p, s, e);
    assert AssignsGenuine(p, t);
    forall key | key in t.cycles ensures CycleSound(p, t, key) {
      assert CycleSound(p, s, key);
      WasOfferedLater(t.log, |s.log|, |t.log|, key.0, key.1, s.cycles[key].request.required);
    }
  }

  lemma OnceGrows(p: Parties, s: State, e: Event)
    requires ExecutionsUsed(s) && ExecutionsDistinct(s.log) && AssignmentsClosed(s) && AssignmentsDistinct(s.log)
    requires MayHappen(p, s, e)
    ensures var t := s.(log := s.log + [e]);
            ExecutionsUsed(t) && ExecutionsDistinct(t.log) && AssignmentsClosed(t) && AssignmentsDistinct(t.log)
  {
    var more := s.log + [e];
    assert forall i :: 0 <= i < |s.log| ==> more[i] == s.log[i];
  }

  /** A message may be published when, if it carries an honest party's signature, that party did say it. */
  ghost predicate MaySay(p: Parties, s: State, m: Message) {
    && (m.Offer? && m.navigator in p.navigators
       ==> LoggedOffer(s.log, m.navigator, m.missionId, m.deadline, m.timestamp))
    && (m.Bidding? && m.bid.providerDid in p.satellites
       ==> LoggedBid(s.log, m.bid.providerDid, m.bid.missionId, m.bid.offered))
    && (m.Assign? && m.navigator in p.navigators ==>
          && (m.navigator, m.missionId) in s.cycles && Won(s.cycles[(m.navigator, m.missionId)], m.provider)
          && Assigned(m.navigator, m.missionId, m.provider) in s.log)
  }

  lemma SoupKeeps(p: Parties, s: State, m: Message)
    requires Inv(p, s) && MaySay(p, s, m)
    ensures Inv(p, s.(soup := s.soup + {m}))
  {
    var t := s.(soup := s.soup + {m});
    forall d | d in t.satellites ensures BookSound(t.soup, d, t.satellites[d]) {
      BookSoundGrows(s.soup, m, d, s.satellites[d]);
    }
    forall key | key in t.cycles ensures CycleSound(p, t, key) {
      assert CycleSound(p, s, key);
    }
  }

  lemma BookSoundGrows(soup: set<Message>, m: Message, d: Did, sat: Satellite)
    requires BookSound(soup, d, sat)
    ensures BookSound(soup + {m}, d, sat)
  {
    forall k | k in sat.book.offers.values ensures OfferPublished(soup + {m}, sat.book.offers.values[k]) {
      var n :| n in soup && n.Offer? && ToOffer(n) == sat.book.offers.values[k];
      assert n in soup + {m};
    }
    forall k | k in sat.book.assigns.values ensures AssignPublished(soup + {m}, sat.book.assigns.values[k]) {
      var n :| n in soup && n.Assign? && ToAssign(n) == sat.book.assigns.values[k];
      assert n in soup + {m};
    }
  }

  lemma CycleKeeps(p: Parties, s: State, key: (Did, MissionId), c: Cycle)
    requires Inv(p, s)
    requires key in s.cycles ==> s.cycles[key].Collecting?
    requires CycleSound(p, s.(cycles := s.cycles[key := c]), key)
    ensures Inv(p, s.(cycles := s.cycles[key := c]))
  {
    var t := s.(cycles := s.cycles[key := c]);
    forall k | k in t.cycles ensures CycleSound(p, t, k) {
      if k != key {
        assert CycleSound(p, s, k);
      }
    }
    assert AssignsGenuine(p, t);
    assert AssignmentsClosed(t);
  }

  lemma SatelliteKeeps(p: Parties, s: State, d: Did, sat: Satellite)
    requires Inv(p, s) && d in s.satellites && BookSound(s.soup, d, sat)
    requires s.satellites[d].book.used <= sat.book.used
    ensures Inv(p, WithSatellite(s, d, sat))
  {
    var t := WithSatellite(s, d, sat);
    assert t.satellites.Keys == s.satellites.Keys;
    forall e | e in t.satellites ensures BookSound(t.soup, e, t.satellites[e]) {
      if e != d {
        assert BookSound(s.soup, e, s.satellites[e]);
      }
    }
    forall key | key in t.cycles ensures CycleSound(p, t, key) {
      assert CycleSound(p, s, key);
    }
    assert ExecutionsUsed(t);
  }

  // ----- Every step keeps the invariant -----

  lemma InitHolds(p: Parties)
    ensures Inv(p, Init(p))
  {
  }

  /** Remembering a value adds no other. */
  lemma {:induction false} EvictKeepsValues<V>(m: JsMap<V>)
    ensures forall k :: k in Evict(m).values ==> k in m.values && Evict(m).values[k] == m.values[k]
    decreases |m.keys|
  {
    if |m.keys| > MAX_REMEMBERED {
      EvictKeepsValues(m.DeleteFirst());
    }
  }

  lemma StartKeeps(p: Parties, s: State, step: Step)
    requires Inv(p, s) && step.StartMission? && Enabled(p, s, step)
    ensures Inv(p, Apply(p, s, step))
  {
    var r, n := step.request, step.navigator;
    var offer := Offer(r.missionId, n, step.missionType, r.required, step.deadline, step.timestamp);
    var e := Offered(n, r.missionId, r.required, step.deadline, step.timestamp);
    LogKeeps(p, s, e);
    var s1 := s.(log := s.log + [e]);
    assert s1.log[|s.log|] == e;
    SoupKeeps(p, s1, offer);
    var s2 := s1.(soup := s1.soup + {offer});
    CycleKeeps(p, s2, (n, r.missionId), Collecting(r, []));
    assert Apply(p, s, step) == s2.(cycles := s2.cycles[(n, r.missionId) := Collecting(r, [])]);
  }

  lemma ReceiveKeeps(p: Parties, s: State, step: Step)
    requires Inv(p, s) && step.ReceiveBid? && Enabled(p, s, step)
    ensures Inv(p, Apply(p, s, step))
  {
    var key := (step.navigator, step.bid.missionId);
    assert CycleSound(p, s, key);
    CycleKeeps(p, s, key, Collecting(s.cycles[key].request, s.cycles[key].bids + [step.bid]));
  }

  /** The winner of an honest navigator's cycle is a published bid for the mission that covers it. */
  lemma WinnerPublished(p: Parties, s: State, key: (Did, MissionId), connected: Did -> bool)
    requires Inv(p, s) && key in s.cycles && s.cycles[key].Collecting?
    requires BidSelection.Winner(s.cycles[key].request, connected, s.cycles[key].bids).Some?
    ensures var w := BidSelection.Winner(s.cycles[key].request, connected, s.cycles[key].bids).value;
            Bidding(w) in s.soup && w.missionId == key.1
                && BidSelection.Covers(s.cycles[key].request.required, w.offered)
  {
    var c := s.cycles[key];
    assert CycleSound(p, s, key);
    BidSelection.WinnerEligible(c.request, connected, c.bids);
    var w := BidSelection.Winner(c.request, connected, c.bids).value;
    var i :| 0 <= i < |c.bids| && c.bids[i] == w;
  }

  lemma AssignmentIsCaused(p: Parties, s: State, key: (Did, MissionId), w: Bid)
    requires Inv(p, s) && key in s.cycles && Bidding(w) in s.soup && w.missionId == key.1
    requires BidSelection.Covers(s.cycles[key].request.required, w.offered)
    ensures AssignmentCaused(p, s.log + [Assigned(key.0, key.1, w.providerDid)], |s.log|)
  {
    var required := s.cycles[key].request.required;
    var more := s.log + [Assigned(key.0, key.1, w.providerDid)];
    LoggedGrows(s.log, Assigned(key.0, key.1, w.providerDid));
    assert CycleSound(p, s, key);
    assert WasOffered(more, |s.log|, key.0, key.1, required);
    if w.providerDid in p.satellites {
      assert LoggedBid(s.log, w.providerDid, w.missionId, w.offered);
      var i :| 0 <= i < |s.log| && s.log[i].BidSent? && s.log[i].satellite == w.providerDid
          && s.log[i].missionId == w.missionId
        && SameCapabilities(w.offered, s.log[i].offered);
      assert more[i] == s.log[i];
      forall j | 0 <= j < |required| ensures required[j] in s.log[i].offered {
        assert required[j] in w.offered;
      }
      assert WasBid(more, |s.log|, w.providerDid, key.1, required);
    }
    assert more[|s.log|] == Assigned(key.0, key.1, w.providerDid);
    assert WasOffered(more, |s.log|, more[|s.log|].navigator, more[|s.log|].missionId, required);
  }

  lemma CloseKeeps(p: Parties, s: State, step: Step)
    requires Inv(p, s) && step.CloseWindow? && Enabled(p, s, step)
    ensures Inv(p, Apply(p, s, step))
  {
    var key := (step.navigator, step.missionId);
    var c := s.cycles[key];
    assert CycleSound(p, s, key);
    var connected := (d: Did) => d in step.connected;
    var winner := BidSelection.Winner(c.request, connected, c.bids);
    var s1 := s.(cycles := s.cycles[key := Closed(c.request, winner)]);
    assert CycleSound(p, s1, key);
    CycleKeeps(p, s, key, Closed(c.request, winner));
    if winner.Some? {
      var w := winner.value;
      var e := Assigned(key.0, key.1, w.providerDid);
      WinnerPublished(p, s, key, connected);
      AssignmentIsCaused(p, s, key, w);
      LogKeeps(p, s1, e);
      var s2 := s1.(log := s1.log + [e]);
      assert s2.log[|s.log|] == e;
      var m := Assign(key.1, key.0, w.providerDid, step.timestamp);
      SoupKeeps(p, s2, m);
      assert Apply(p, s, step) == s2.(soup := s2.soup + {m});
    }
  }

  lemma PublishKeeps(p: Parties, s: State, step: Step)
    requires Inv(p, s) && step.Publish? && Enabled(p, s, step)
    ensures Inv(p, Apply(p, s, step))
  {
    var m := step.message;
    if m.Signer() in p.navigators || m.Signer() in p.satellites {
      var n :| n in s.soup && SameSigned(m, n);
      if m.Bidding? && m.bid.providerDid in p.satellites {
        assert LoggedBid(s.log, n.bid.providerDid, n.bid.missionId, n.bid.offered);
        var i :| 0 <= i < |s.log| && s.log[i].BidSent? && s.log[i].satellite == n.bid.providerDid
          && s.log[i].missionId == n.bid.missionId && SameCapabilities(n.bid.offered, s.log[i].offered);
        assert SameCapabilities(m.bid.offered, s.log[i].offered);
      }
    }
    assert MaySay(p, s, m);
    SoupKeeps(p, s, m);
  }

  lemma RecordOfferSound(soup: set<Message>, d: Did, sat: Satellite, m: Message)
    requires BookSound(soup, d, sat) && m in soup && m.Offer?
    ensures BookSound(soup, d, sat.(book := ProviderCore.Step(d, sat.book, RecordOffer(ToOffer(m))),
            verifying := sat.verifying - {m}))
  {
    EvictKeepsValues(sat.book.offers.Set(m.missionId, ToOffer(m)));
    assert OfferPublished(soup, ToOffer(m));
  }

  lemma RecordAssignSound(soup: set<Message>, d: Did, sat: Satellite, m: Message)
    requires BookSound(soup, d, sat) && m in soup && m.Assign?
    ensures BookSound(soup, d, sat.(book := ProviderCore.Step(d, sat.book, RecordAssign(ToAssign(m))),
            verifying := sat.verifying - {m}))
  {
    EvictKeepsValues(sat.book.assigns.Set(m.missionId, ToAssign(m)));
    assert AssignPublished(soup, ToAssign(m));
  }

  lemma OfferVerifiedKeeps(p: Parties, s: State, step: Step)
    requires Inv(p, s) && step.OfferVerified? && Enabled(p, s, step)
    ensures Inv(p, Apply(p, s, step))
  {
    var d, m := step.satellite, step.message;
    var sat := s.satellites[d];
    assert BookSound(s.soup, d, sat);
    RecordOfferSound(s.soup, d, sat, m);
    var recorded := sat.(book := ProviderCore.Step(d, sat.book, RecordOffer(ToOffer(m))),
        verifying := sat.verifying - {m});
    if !CanServe(m) || m.missionId in sat.bidded || !step.accepting || !step.reachable || sat.active >= MAX_ACTIVE {
      SatelliteKeeps(p, s, d, recorded);
    } else {
      var bidder := recorded.(bidded := sat.bidded + {m.missionId});
      SatelliteKeeps(p, s, d, bidder);
      var s1 := WithSatellite(s, d, bidder);
      var e := BidSent(d, m.missionId, [CAPABILITY]);
      LogKeeps(p, s1, e);
      var s2 := s1.(log := s1.log + [e]);
      assert s2.log[|s.log|] == e;
      var b := Bidding(OwnBid(d, m.missionId));
      assert LoggedBid(s2.log, d, m.missionId, [CAPABILITY]);
      SoupKeeps(p, s2, b);
      assert Apply(p, s, step) == s2.(soup := s2.soup + {b});
    }
  }

  lemma ExecutionIsCaused(p: Parties, s: State, d: Did, n: Did, id: MissionId, now: int)
    requires Inv(p, s) && d in s.satellites && Authorize(d, s.satellites[d].book, id, n, now) == Authorized
    ensures ExecutionCaused(p, s.log + [Executed(d, n, id, now)], |s.log|)
  {
    var e := Executed(d, n, id, now);
    var book := s.satellites[d].book;
    var offer, assign := book.offers.values[id], book.assigns.values[id];
    assert BookSound(s.soup, d, s.satellites[d]);
    var m :| m in s.soup && m.Offer? && ToOffer(m) == offer;
    var a :| a in s.soup && a.Assign? && ToAssign(a) == assign;
    if n in p.navigators {
      assert LoggedOffer(s.log, n, id, offer.bidDeadlineMs, offer.timestamp);
      InTimeExactly(offer, now);
      var i :| 0 <= i < |s.log| && s.log[i].Offered? && s.log[i].navigator == n && s.log[i].missionId == id
        && s.log[i].deadline == offer.bidDeadlineMs && s.log[i].timestamp == offer.timestamp;
      assert (s.log + [e])[i] == s.log[i];
      assert Assigned(n, id, d) in s.log;
      var j :| 0 <= j < |s.log| && s.log[j] == Assigned(n, id, d);
      assert (s.log + [e])[j] == s.log[j];
    }
  }

  lemma ConsumeSound(soup: set<Message>, d: Did, sat: Satellite, id: MissionId, n: Did, now: int)
    requires BookSound(soup, d, sat)
    ensures var book := ProviderCore.Step(d, sat.book, Consume(id, n, now));
            && BookSound(soup, d, sat.(book := book)) && sat.book.used <= book.used
            && (Authorize(d, sat.book, id, n, now) == Authorized ==> id in book.used && id !in sat.book.used)
  {
  }

  lemma NotExecutedYet(s: State, d: Did, id: MissionId, e: Event)
    requires ExecutionsUsed(s) && d in s.satellites && id !in s.satellites[d].book.used
    requires e.Executed? && e.satellite == d && e.missionId == id
    ensures forall i :: 0 <= i < |s.log| ==> !SameExecution(s.log[i], e)
  {
  }

  lemma ToolCallKeeps(p: Parties, s: State, step: Step)
    requires Inv(p, s) && step.ToolCall? && Enabled(p, s, step)
    ensures Inv(p, Apply(p, s, step))
  {
    var d, id, now := step.satellite, step.missionId, step.now;
    var sat := s.satellites[d];
    var n := sat.streams[step.stream];
    assert BookSound(s.soup, d, sat);
    ConsumeSound(s.soup, d, sat, id, n, now);
    var after := Apply(p, s, step).satellites[d];
    assert after.book == ProviderCore.Step(d, sat.book, Consume(id, n, now)) && after.verifying == sat.verifying;
    SatelliteKeeps(p, s, d, after);
    if Authorize(d, sat.book, id, n, now) == Authorized {
      var e := Executed(d, n, id, now);
      ExecutionIsCaused(p, s, d, n, id, now);
      NotExecutedYet(s, d, id, e);
      LogKeeps(p, WithSatellite(s, d, after), e);
    }
  }

  lemma OtherKeeps(p: Parties, s: State, step: Step)
    requires Inv(p, s) && Enabled(p, s, step)
    requires step.LearnNavigator? || step.OfferArrives? || step.AssignArrives? || step.AssignVerified?
             || step.OpenStream? || step.Finish?
    ensures Inv(p, Apply(p, s, step))
  {
    var d := step.satellite;
    var sat := s.satellites[d];
    assert BookSound(s.soup, d, sat);
    if step.AssignVerified? {
      RecordAssignSound(s.soup, d, sat, step.message);
    }
    SatelliteKeeps(p, s, d, Apply(p, s, step).satellites[d]);
  }

  lemma StepKeeps(p: Parties, s: State, step: Step)
    requires Inv(p, s) && Enabled(p, s, step)
    ensures Inv(p, Apply(p, s, step))
  {
    match step
    case StartMission(_, _, _, _, _) => StartKeeps(p, s, step);
    case ReceiveBid(_, _) => ReceiveKeeps(p, s, step);
    case CloseWindow(_, _, _, _) => CloseKeeps(p, s, step);
    case OfferVerified(_, _, _, _) => OfferVerifiedKeeps(p, s, step);
    case ToolCall(_, _, _, _) => ToolCallKeeps(p, s, step);
    case Publish(_) => PublishKeeps(p, s, step);
    case _ => OtherKeeps(p, s, step);
  }

  lemma {:induction false} RunKeeps(p: Parties, steps: seq<Step>)
    requires Run(p, steps).Some?
    ensures Inv(p, Run(p, steps).value)
  {
    if steps == [] {
      InitHolds(p);
    } else {
      RunKeeps(p, steps[..|steps| - 1]);
      StepKeeps(p, Run(p, steps[..|steps| - 1]).value, steps[|steps| - 1]);
    }
  }
}
