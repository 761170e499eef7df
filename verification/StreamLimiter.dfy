/**
 Admission of incoming streams: at most 64 open on the node and 8 for one peer. A permit is live from its
 admission until it is dropped.
 */
module StreamLimiter {
  const MAX_INBOUND_STREAMS: nat := 64
  const MAX_INBOUND_STREAMS_PER_PEER: nat := 8

  type PeerId = string

  datatype Admission = Admitted | NodeFull(open: nat) | PeerFull(open: nat)

  datatype Limits = Limits(total: nat, perPeer: map<PeerId, nat>)

  const EMPTY: Limits := Limits(0, map[])

  function Open(perPeer: map<PeerId, nat>, peer: PeerId): nat {
    if peer in perPeer then perPeer[peer] else 0
  }

  function Admit(s: Limits, peer: PeerId): (Limits, Admission) {
    var open := Open(s.perPeer, peer);
    if s.total >= MAX_INBOUND_STREAMS then (s, NodeFull(s.total))
    else if open >= MAX_INBOUND_STREAMS_PER_PEER then (s, PeerFull(open))
    else (Limits(s.total + 1, s.perPeer[peer := open + 1]), Admitted)
  }

  function Drop(s: Limits, peer: PeerId): Limits
    requires s.total > 0 && (peer in s.perPeer ==> s.perPeer[peer] > 0)
  {
    Limits(s.total - 1,
           if peer !in s.perPeer then s.perPeer
           else if s.perPeer[peer] == 1 then s.perPeer - {peer}
           else s.perPeer[peer := s.perPeer[peer] - 1])
  }

  // ----- The limiter -----

  class Limiter {
    var total: nat
    var perPeer: map<PeerId, nat>

    function State(): Limits
      reads this
    {
      Limits(total, perPeer)
    }

    constructor ()
      ensures State() == EMPTY
    {
      total := 0;
      perPeer := map[];
    }

    method TryAdmit(peer: PeerId) returns (r: Admission)
      modifies this
      ensures r == (if old(total) >= MAX_INBOUND_STREAMS then NodeFull(old(total))
                    else if Open(old(perPeer), peer) >= MAX_INBOUND_STREAMS_PER_PEER
                    then PeerFull(Open(old(perPeer), peer))
                    else Admitted)
      ensures r == Admitted ==> total == old(total) + 1 && Open(perPeer, peer) == Open(old(perPeer), peer) + 1
      ensures r != Admitted ==> total == old(total) && perPeer == old(perPeer)
      ensures forall p :: p != peer ==>
                (p in perPeer <==> p in old(perPeer)) && Open(perPeer, p) == Open(old(perPeer), p)
      ensures (State(), r) == Admit(old(State()), peer)
    {
      if total >= MAX_INBOUND_STREAMS {
        return NodeFull(total);
      }
      var open := Open(perPeer, peer);
      if open >= MAX_INBOUND_STREAMS_PER_PEER {
        return PeerFull(open);
      }
      total := total + 1;
      perPeer := perPeer[peer := open + 1];
      return Admitted;
    }

    method DropPermit(peer: PeerId)
      requires total > 0 && (peer in perPeer ==> perPeer[peer] > 0)
      modifies this
      ensures State() == Drop(old(State()), peer)
    {
      total := total - 1;
      if peer in perPeer {
        perPeer := perPeer[peer := perPeer[peer] - 1];
        if perPeer[peer] == 0 {
          perPeer := perPeer - {peer};
        }
      }
      assert State() == Drop(old(State()), peer) by {
        if peer in old(perPeer) && old(perPeer)[peer] == 1 {
          assert old(perPeer)[peer := 0] - {peer} == old(perPeer) - {peer};
        }
      }
    }
  }

  // ----- Every history of admissions and drops -----

  datatype Event = Asks(peer: PeerId) | Drops(peer: PeerId)

  /** The limiter and the permits that are live. */
  datatype World = World(limits: Limits, live: multiset<PeerId>)

  ghost predicate Tally(w: World) {
    w.limits.total == |w.live| <= 64
    && forall p :: (p in w.limits.perPeer <==> p in w.live)
                   && Open(w.limits.perPeer, p) == w.live[p] <= 8
  }

  /** Only a live permit can be dropped. */
  ghost predicate Possible(w: World, run: seq<Event>)
    requires Tally(w)
    decreases |run|
  {
    run == [] || ((run[0].Drops? ==> run[0].peer in w.live)
        && (StepKeeps(w, run[0]); Possible(Step(w, run[0]), run[1..])))
  }

  ghost function Step(w: World, e: Event): World
    requires Tally(w) && (e.Drops? ==> e.peer in w.live)
  {
    match e
    case Asks(p) =>
      var (s, r) := Admit(w.limits, p);
      World(s, if r.Admitted? then w.live + multiset{p} else w.live)
    case Drops(p) => World(Drop(w.limits, p), w.live - multiset{p})
  }

  /** Total and per-peer counts are those of the live permits, within 64 and 8, and idle peers leave no entry. */
  lemma StepKeeps(w: World, e: Event)
    requires Tally(w) && (e.Drops? ==> e.peer in w.live)
    ensures Tally(Step(w, e))
  {
    var after := Step(w, e);
    forall p
      ensures (p in after.limits.perPeer <==> p in after.live) && Open(after.limits.perPeer, p) == after.live[p]
    {
      assert Open(w.limits.perPeer, p) == w.live[p];
    }
  }

  ghost function After(w: World, run: seq<Event>): World
    requires Tally(w) && Possible(w, run)
    decreases |run|
  {
    if run == [] then w
    else
      StepKeeps(w, run[0]);
      After(Step(w, run[0]), run[1..])
  }

  lemma {:induction false} RunKeeps(w: World, run: seq<Event>)
    requires Tally(w) && Possible(w, run)
    ensures Tally(After(w, run))
    decreases |run|
  {
    if run != [] {
      StepKeeps(w, run[0]);
      RunKeeps(Step(w, run[0]), run[1..]);
    }
  }

  /** After any history a stream is refused exactly when 64 permits are live, or 8 of its peer; dropping every
      permit empties the limiter. */
  lemma AdmissionExactly(run: seq<Event>, peer: PeerId)
    requires Possible(World(EMPTY, multiset{}), run)
    ensures var w := After(World(EMPTY, multiset{}), run);
            && (Admit(w.limits, peer).1.Admitted? <==>
                |w.live| < 64 && w.live[peer] < 8)
            && (Admit(w.limits, peer).1 == NodeFull(64) <==> |w.live| == 64)
            && (Admit(w.limits, peer).1 == PeerFull(8) <==> |w.live| < 64 && w.live[peer] == 8)
            && (w.live == multiset{} ==> w.limits == EMPTY)
  {
    var start := World(EMPTY, multiset{});
    assert Tally(start);
    RunKeeps(start, run);
    var w := After(start, run);
    assert Open(w.limits.perPeer, peer) == w.live[peer];
    if w.live == multiset{} {
      assert w.limits.perPeer == map[];
    }
  }
}
