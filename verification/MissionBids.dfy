/**
 For what a satellite bids: once for a mission, and only for an offer it can serve.
 */
module MissionBids {
  import opened Wrappers
  import opened MissionProtocol

  ghost predicate SameBid(a: Event, b: Event) {
    a.BidSent? && b.BidSent? && a.satellite == b.satellite && a.missionId == b.missionId
  }

  /** Someone published a tool call for the mission that requires something, and nothing but arithmetic. */
  ghost predicate Asked(soup: set<Message>, id: MissionId) {
    exists m :: m in soup && m.Offer? && m.missionId == id && m.missionType == "tool_call"
                && |m.required| > 0 && forall q :: q in m.required ==> q == "math.arithmetic.solve"
  }

  ghost predicate Recorded(s: State, e: Event) {
    e.BidSent? ==> e.satellite in s.satellites && e.missionId in s.satellites[e.satellite].bidded
                   && Asked(s.soup, e.missionId) && e.offered == ["math.arithmetic.solve"]
  }

  ghost predicate BidsSound(s: State) {
    && (forall d, m :: d in s.satellites && m in s.satellites[d].verifying ==> m in s.soup)
    && (forall i :: 0 <= i < |s.log| ==> Recorded(s, s.log[i]))
    && (forall i, j :: 0 <= i < j < |s.log| ==> !SameBid(s.log[i], s.log[j]))
  }

  /** Nothing is forgotten: pools, bids made and the log only grow. */
  ghost predicate Grows(s: State, t: State) {
    && s.soup <= t.soup && s.satellites.Keys <= t.satellites.Keys
    && (forall d :: d in s.satellites ==> s.satellites[d].bidded <= t.satellites[d].bidded)
  }

  lemma AskedGrows(soup: set<Message>, more: set<Message>, id: MissionId)
    requires soup <= more && Asked(soup, id)
    ensures Asked(more, id)
  {
    var m :| m in soup && m.Offer? && m.missionId == id && m.missionType == "tool_call"
             && |m.required| > 0 && forall q :: q in m.required ==> q == "math.arithmetic.solve";
    assert m in more;
  }

  lemma RecordedGrows(s: State, t: State, e: Event)
    requires Grows(s, t) && Recorded(s, e)
    ensures Recorded(t, e)
  {
    if e.BidSent? {
      AskedGrows(s.soup, t.soup, e.missionId);
    }
  }

  /** A step that adds at most one event, which is recorded and is no bid made before. */
  lemma OneEvent(s: State, t: State, added: seq<Event>)
    requires BidsSound(s) && Grows(s, t) && t.log == s.log + added && |added| <= 1
    requires forall d, m :: d in t.satellites && m in t.satellites[d].verifying ==> m in t.soup
    requires forall e :: e in added ==> Recorded(t, e) && forall i :: 0 <= i < |s.log| ==> !SameBid(s.log[i], e)
    ensures BidsSound(t)
  {
    hide Recorded, Grows;
    forall i | 0 <= i < |t.log| ensures Recorded(t, t.log[i]) {
      if i < |s.log| {
        RecordedGrows(s, t, s.log[i]);
        assert t.log[i] == s.log[i];
      } else {
        assert t.log[i] == added[0];
      }
    }
    forall i, j | 0 <= i < j < |t.log| ensures !SameBid(t.log[i], t.log[j]) {
      assert t.log[i] == s.log[i];
      assert t.log[j] == if j < |s.log| then s.log[j] else added[0];
    }
  }

  lemma BidStep(p: Parties, s: State, step: Step)
    requires BidsSound(s) && Enabled(p, s, step) && step.OfferVerified?
    ensures BidsSound(Apply(p, s, step))
  {
    var t, d, m := Apply(p, s, step), step.satellite, step.message;
    if t.log == s.log {
      assert s.log + [] == s.log;
      OneEvent(s, t, []);
    } else {
      var e := BidSent(d, m.missionId, [CAPABILITY]);
      assert t.log == s.log + [e] && m in s.soup && m.missionId !in s.satellites[d].bidded;
      forall q | q in m.required ensures q == CAPABILITY {
        var i :| 0 <= i < |m.required| && m.required[i] == q;
      }
      assert Asked(t.soup, m.missionId) && Recorded(t, e);
      forall i | 0 <= i < |s.log| ensures !SameBid(s.log[i], e) {
        assert Recorded(s, s.log[i]);
      }
      OneEvent(s, t, [e]);
    }
  }

  lemma OtherStep(p: Parties, s: State, step: Step)
    requires BidsSound(s) && Enabled(p, s, step) && !step.OfferVerified?
    ensures BidsSound(Apply(p, s, step))
  {
    var t := Apply(p, s, step);
    var added := t.log[|s.log|..];
    OtherEvents(p, s, step);
    OtherGrows(p, s, step);
    OtherVerifies(p, s, step);
    hide Grows, Apply, Enabled;
    OneEvent(s, t, added);
  }

  lemma OtherEvents(p: Parties, s: State, step: Step)
    requires Enabled(p, s, step) && !step.OfferVerified?
    ensures var t := Apply(p, s, step);
            && |s.log| <= |t.log| <= |s.log| + 1 && t.log == s.log + t.log[|s.log|..]
            && forall e :: e in t.log[|s.log|..] ==> !e.BidSent?
  {
  }

  lemma OtherGrows(p: Parties, s: State, step: Step)
    requires Enabled(p, s, step) && !step.OfferVerified?
    ensures Grows(s, Apply(p, s, step))
  {
  }

  lemma OtherVerifies(p: Parties, s: State, step: Step)
    requires Enabled(p, s, step) && !step.OfferVerified?
    requires forall d, m :: d in s.satellites && m in s.satellites[d].verifying ==> m in s.soup
    ensures var t := Apply(p, s, step);
            forall d, m :: d in t.satellites && m in t.satellites[d].verifying ==> m in t.soup
  {
  }

  lemma {:induction false} BidsKept(p: Parties, steps: seq<Step>)
    requires Run(p, steps).Some?
    ensures BidsSound(Run(p, steps).value)
  {
    if steps != [] {
      var init, step := steps[..|steps| - 1], steps[|steps| - 1];
      BidsKept(p, init);
      hide BidsSound;
      if step.OfferVerified? {
        BidStep(p, Run(p, init).value, step);
      } else {
        OtherStep(p, Run(p, init).value, step);
      }
    }
  }

  /** Over every run a satellite bids for a mission at most once, only with arithmetic, and only after someone
      published a tool call for it that requires nothing else. */
  lemma BidsOnce(p: Parties, steps: seq<Step>, i: nat)
    requires Run(p, steps).Some?
    requires i < |Run(p, steps).value.log| && Run(p, steps).value.log[i].BidSent?
    ensures var s := Run(p, steps).value;
            && s.log[i].offered == ["math.arithmetic.solve"] && Asked(s.soup, s.log[i].missionId)
            && forall j :: 0 <= j < |s.log| && SameBid(s.log[i], s.log[j]) ==> i == j
  {
    BidsKept(p, steps);
    var s := Run(p, steps).value;
    assert Recorded(s, s.log[i]);
    forall j | 0 <= j < |s.log| && SameBid(s.log[i], s.log[j]) ensures i == j {
      assert SameBid(s.log[j], s.log[i]);
    }
  }
}
