/**
 What every run of the mission protocol guarantees, and a run in which a mission completes.
 */
module MissionSafety {
  import opened Wrappers
  import BidSelection
  import ProviderCore
  import opened MissionProtocol

  /** A mission of an honest navigator is executed at most once over all satellites. */
  lemma ExecutedAtMostOnce(p: Parties, steps: seq<Step>, i: nat, j: nat)
    requires Run(p, steps).Some?
    requires var log := Run(p, steps).value.log;
             i < |log| && j < |log| && log[i].Executed? && log[j].Executed?
             && log[i].navigator == log[j].navigator && log[i].missionId == log[j].missionId
             && log[i].navigator in p.navigators
    ensures i == j
  {
    RunKeeps(p, steps);
    var log := Run(p, steps).value.log;
    assert ExecutionCaused(p, log, i) && ExecutionCaused(p, log, j);
    var a :| 0 <= a < i && log[a] == Assigned(log[i].navigator, log[i].missionId, log[i].satellite);
    var b :| 0 <= b < j && log[b] == Assigned(log[j].navigator, log[j].missionId, log[j].satellite);
    assert !(a < b && SameMission(log[a], log[b])) && !(b < a && SameMission(log[b], log[a]));
    assert SameExecution(log[i], log[j]) && SameExecution(log[j], log[i]);
  }

  /** A satellite executes a mission id at most once, whoever asks. */
  lemma SatelliteExecutesOnce(p: Parties, steps: seq<Step>, i: nat, j: nat)
    requires Run(p, steps).Some?
    requires var log := Run(p, steps).value.log; i < |log| && j < |log| && SameExecution(log[i], log[j])
    ensures i == j
  {
    RunKeeps(p, steps);
    var log := Run(p, steps).value.log;
    assert SameExecution(log[j], log[i]);
  }

  /** Every execution for an honest navigator was preceded by that navigator's one assignment of the
      mission, to this satellite; the assignment by the navigator's offer and by this satellite's bid,
      which covered what was required; and it came before the offer's deadline plus the grace. */
  lemma ExecutionHasItsCauses(p: Parties, steps: seq<Step>, i: nat)
    requires Run(p, steps).Some?
    requires var log := Run(p, steps).value.log; i < |log| && log[i].Executed? && log[i].navigator in p.navigators
    ensures var log := Run(p, steps).value.log;
            var (sat, nav, id) := (log[i].satellite, log[i].navigator, log[i].missionId);
            && sat in p.satellites
            && WasOfferedUntil(log, i, nav, id, log[i].now)
            && exists a, required :: 0 <= a < i && log[a] == Assigned(nav, id, sat)
                 && WasOffered(log, a, nav, id, required) && WasBid(log, a, sat, id, required)
                 && forall b :: 0 <= b < |log| && SameMission(log[a], log[b]) ==> b == a
  {
    RunKeeps(p, steps);
    var log := Run(p, steps).value.log;
    var (sat, nav, id) := (log[i].satellite, log[i].navigator, log[i].missionId);
    assert ExecutionCaused(p, log, i);
    var a :| 0 <= a < i && log[a] == Assigned(nav, id, sat);
    assert AssignmentCaused(p, log, a);
    var required :| WasOffered(log, a, nav, id, required)
        && (sat in p.satellites ==> WasBid(log, a, sat, id, required));
    forall b | 0 <= b < |log| && SameMission(log[a], log[b]) ensures b == a {
      assert SameMission(log[b], log[a]);
    }
  }

  // ----- The protocol can complete -----

  lemma RunSnoc(p: Parties, steps: seq<Step>, step: Step)
    requires Run(p, steps).Some? && Enabled(p, Run(p, steps).value, step)
    ensures Run(p, steps + [step]) == Some(Apply(p, Run(p, steps).value, step))
  {
    assert (steps + [step])[..|steps|] == steps;
  }

  function CapabilityRequest(id: MissionId): BidSelection.Request {
    BidSelection.Request(id, [CAPABILITY], None, None)
  }

  function ToolOffer(n: Did, id: MissionId, deadline: int, t: int): Message {
    Offer(id, n, "tool_call", [CAPABILITY], deadline, t)
  }

  /** The satellite has recorded the offer and served nothing. */
  ghost predicate HasOffer(s: State, n: Did, d: Did, id: MissionId, deadline: int, t: int) {
    && d in s.satellites && s.satellites[d].navigator == Some(n)
    && s.satellites[d].book.used == {} && s.satellites[d].streams == map[]
    && Offered(n, id, [CAPABILITY], deadline, t) in s.log
    && id in s.satellites[d].book.offers.values
    && s.satellites[d].book.offers.values[id] == ToOffer(ToolOffer(n, id, deadline, t))
  }

  lemma CanOffer(p: Parties, n: Did, d: Did, id: MissionId, deadline: int, t: int) returns (steps: seq<Step>)
    requires n in p.navigators && d in p.satellites && id != ""
    ensures Run(p, steps).Some?
    ensures var s := Run(p, steps).value;
            && d in s.satellites && s.satellites[d] == IdleSatellite().(navigator := Some(n))
            && ToolOffer(n, id, deadline, t) in s.soup
            && (n, id) in s.cycles && s.cycles[(n, id)] == Collecting(CapabilityRequest(id), [])
            && Offered(n, id, [CAPABILITY], deadline, t) in s.log
  {
    steps := [];
    assert Run(p, steps) == Some(Init(p));
    hide Run;
    RunSnoc(p, steps, LearnNavigator(d, n));
    steps := steps + [LearnNavigator(d, n)];
    RunSnoc(p, steps, StartMission(n, CapabilityRequest(id), "tool_call", deadline, t));
    steps := steps + [StartMission(n, CapabilityRequest(id), "tool_call", deadline, t)];
  }

  lemma CanBid(p: Parties, n: Did, d: Did, id: MissionId, deadline: int, t: int) returns (steps: seq<Step>)
    requires n in p.navigators && d in p.satellites && id != ""
    ensures Run(p, steps).Some?
    ensures var s := Run(p, steps).value;
            && HasOffer(s, n, d, id, deadline, t) && Bidding(OwnBid(d, id)) in s.soup
            && (n, id) in s.cycles && s.cycles[(n, id)] == Collecting(CapabilityRequest(id), [])
            && s.satellites[d].book.assigns == ProviderCore.EmptyMap()
  {
    var offer := ToolOffer(n, id, deadline, t);
    steps := CanOffer(p, n, d, id, deadline, t);
    hide Run;
    RunSnoc(p, steps, OfferArrives(d, offer));
    steps := steps + [OfferArrives(d, offer)];
    RunSnoc(p, steps, OfferVerified(d, offer, true, true));
    steps := steps + [OfferVerified(d, offer, true, true)];
  }

  lemma OnlyBidWins(d: Did, id: MissionId, connected: Did -> bool)
    ensures BidSelection.Winner(CapabilityRequest(id), connected, [OwnBid(d, id)]) == Some(OwnBid(d, id))
  {
    var bids := [OwnBid(d, id)];
    assert bids[1..] == [] && bids[..0] == [];
    assert BidSelection.Covers([CAPABILITY], bids[0].offered);
    assert BidSelection.Eligible(bids, [CAPABILITY]) == [bids[0]] + BidSelection.Eligible(bids[1..], [CAPABILITY]);
    assert BidSelection.Eligible(bids, [CAPABILITY]) == bids;
    assert BidSelection.Best(bids[..0]) == None;
  }

  lemma CanAssign(p: Parties, n: Did, d: Did, id: MissionId, deadline: int, t: int) returns (steps: seq<Step>)
    requires n in p.navigators && d in p.satellites && id != ""
    ensures Run(p, steps).Some?
    ensures var s := Run(p, steps).value;
            && HasOffer(s, n, d, id, deadline, t) && Assign(id, n, d, t) in s.soup
            && s.satellites[d].book.assigns == ProviderCore.EmptyMap()
  {
    steps := CanBid(p, n, d, id, deadline, t);
    OnlyBidWins(d, id, (x: Did) => x in {d});
    hide Run;
    RunSnoc(p, steps, ReceiveBid(n, OwnBid(d, id)));
    steps := steps + [ReceiveBid(n, OwnBid(d, id))];
    assert [] + [OwnBid(d, id)] == [OwnBid(d, id)];
    RunSnoc(p, steps, CloseWindow(n, id, {d}, t));
    steps := steps + [CloseWindow(n, id, {d}, t)];
  }

  lemma CanRecord(p: Parties, n: Did, d: Did, id: MissionId, deadline: int, t: int) returns (steps: seq<Step>)
    requires n in p.navigators && d in p.satellites && id != ""
    ensures Run(p, steps).Some?
    ensures var s := Run(p, steps).value;
            && HasOffer(s, n, d, id, deadline, t) && id in s.satellites[d].book.assigns.values
            && s.satellites[d].book.assigns.values[id] == ToAssign(Assign(id, n, d, t))
  {
    var assign := Assign(id, n, d, t);
    steps := CanAssign(p, n, d, id, deadline, t);
    hide Run;
    RunSnoc(p, steps, AssignArrives(d, assign));
    steps := steps + [AssignArrives(d, assign)];
    RunSnoc(p, steps, AssignVerified(d, assign));
    steps := steps + [AssignVerified(d, assign)];
  }

  /** Any satellite can come to execute a mission of any navigator, whenever it is offered and with either
      form of deadline, at any time up to the deadline and its grace. */
  lemma MissionCanComplete(p: Parties, n: Did, d: Did, id: MissionId, deadline: int, t: int, now: int)
      returns (steps: seq<Step>)
    requires n in p.navigators && d in p.satellites && id != "" && ProviderCore.InTime(t, deadline, now)
    ensures Run(p, steps).Some?
    ensures Offered(n, id, [CAPABILITY], deadline, t) in Run(p, steps).value.log
    ensures Executed(d, n, id, now) in Run(p, steps).value.log
  {
    steps := CanRecord(p, n, d, id, deadline, t);
    ProviderCore.InTimeExactly(ToOffer(ToolOffer(n, id, deadline, t)), now);
    hide Run, ProviderCore.InTime, ProviderCore.OfferDeadline;
    RunSnoc(p, steps, OpenStream(d, 0));
    steps := steps + [OpenStream(d, 0)];
    RunSnoc(p, steps, ToolCall(d, 0, id, now));
    steps := steps + [ToolCall(d, 0, id, now)];
  }
}
