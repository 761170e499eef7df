/**
 The cache of announced providers: what is accepted, how long it stays, and how far older announcements
 are kept out. Times are milliseconds and 64-bit.
 */
module PeerCache {
  import opened Wrappers

  const TTL_GRACE_MS: int := 30_000
  const MAX_ADVERT_SKEW_MS: int := 120_000
  const MAX_ADVERT_TTL_SECONDS: int := 120

  type i64 = x: int | -0x8000_0000_0000_0000 <= x < 0x8000_0000_0000_0000

  /** Far enough from the end of 64-bit time for every sum below to be exact. */
  const LATEST: int := 0x7FFF_FFFF_FFFF_FFFF - 270_000

  datatype Advert<+B> = Advert(did: string, timestamp: i64, ttlSeconds: int, beacon: B)

  datatype Entry<+B> = Entry(advert: Advert<B>, lastSeenMs: i64, expiresAtMs: i64, advertExpiresMs: i64)

  type Peers<+B> = map<string, Entry<B>>

  predicate Fits(x: int) { -0x8000_0000_0000_0000 <= x < 0x8000_0000_0000_0000 }

  /** Two's complement sum. */
  function Wrap(x: int): i64 {
    (x + 0x8000_0000_0000_0000) % 0x1_0000_0000_0000_0000 - 0x8000_0000_0000_0000
  }

  /** An announcement with a DID, made within two minutes of `now`, for 1 to 120 seconds, whose end is a time. */
  predicate Timed<B>(a: Advert<B>, now: i64) {
    a.did != "" && now - 120_000 <= a.timestamp <= now + 120_000 && 1 <= a.ttlSeconds <= 120
    && a.timestamp + a.ttlSeconds * 1000 <= 0x7FFF_FFFF_FFFF_FFFF
  }

  lemma TimedExactly<B>(peers: Peers<B>, a: Advert<B>, now: i64)
    ensures Accepts(peers, a, now)
            <==> Timed(a, now) && (a.did in peers ==> peers[a.did].advert.timestamp < a.timestamp)
  {
  }

  /** The announcer's clock is within two minutes and the TTL within 1 to 120 seconds. */
  predicate Fresh<B>(a: Advert<B>, now: i64) {
    1 <= a.ttlSeconds <= MAX_ADVERT_TTL_SECONDS
    && (if a.timestamp < now then now - a.timestamp else a.timestamp - now) <= MAX_ADVERT_SKEW_MS
  }

  function Expiry<B>(a: Advert<B>): int { a.timestamp + a.ttlSeconds * 1000 + TTL_GRACE_MS }

  predicate Accepts<B>(peers: Peers<B>, a: Advert<B>, now: i64) {
    a.did != "" && Fresh(a, now) && Fits(a.timestamp + a.ttlSeconds * 1000)
    && (a.did in peers ==> a.timestamp > peers[a.did].advert.timestamp)
  }

  function EntryFor<B>(a: Advert<B>, now: i64): Entry<B>
    requires Fits(a.timestamp + a.ttlSeconds * 1000)
  {
    Entry(a, now, Wrap(Expiry(a)), a.timestamp + a.ttlSeconds * 1000)
  }

  function Upsert<B>(peers: Peers<B>, a: Advert<B>, now: i64): Peers<B> {
    if Accepts(peers, a, now) then peers[a.did := EntryFor(a, now)] else peers
  }

  function Sweep<B>(peers: Peers<B>, now: i64): Peers<B> {
    map did | did in peers && peers[did].expiresAtMs > now :: peers[did]
  }

  function Get<B>(peers: Peers<B>, did: string, now: i64): Option<Entry<B>> {
    if did in peers && peers[did].expiresAtMs > now then Some(peers[did]) else None
  }

  // ----- The cache -----

  class Cache<B(==)> {
    var inner: Peers<B>

    constructor ()
      ensures inner == map[]
    {
      inner := map[];
    }

    method UpsertAt(message: Advert<B>, now: i64) returns (ok: bool)
      modifies this
      ensures ok <==> Timed(message, now) && (message.did in old(inner) ==>
                        old(inner)[message.did].advert.timestamp < message.timestamp)
      ensures !ok ==> inner == old(inner)
      ensures ok ==> message.did in inner && inner == old(inner)[message.did := inner[message.did]]
                     && inner[message.did].advert == message && inner[message.did].lastSeenMs == now
                     && (message.timestamp <= LATEST ==>
                           inner[message.did].expiresAtMs == message.timestamp + message.ttlSeconds * 1000 + 30_000)
      ensures inner == Upsert(old(inner), message, now)
    {
      TimedExactly(old(inner), message, now);
      if message.did == "" {
        return false;
      }
      var ttl := message.ttlSeconds;
      var skew := if message.timestamp < now then now - message.timestamp else message.timestamp - now;
      if !(1 <= ttl <= MAX_ADVERT_TTL_SECONDS) || skew > MAX_ADVERT_SKEW_MS {
        return false;
      }
      if !Fits(message.timestamp + ttl * 1000) {
        return false;
      }
      if message.did in inner && message.timestamp <= inner[message.did].advert.timestamp {
        return false;
      }
      var ttlMs := ttl * 1000 + TTL_GRACE_MS;
      var entry := Entry(message, now, Wrap(message.timestamp + ttlMs), message.timestamp + ttl * 1000);
      inner := inner[message.did := entry];
      if message.timestamp <= LATEST {
        WrapExact(message.timestamp + ttlMs);
      }
      return true;
    }

    /** Forgets what expired and returns the rest. */
    method Live(now: i64) returns (entries: set<Entry<B>>)
      modifies this
      ensures inner == Sweep(old(inner), now)
      ensures forall e :: e in entries <==> exists did :: did in old(inner) && Get(old(inner), did, now) == Some(e)
    {
      inner := map did | did in inner && inner[did].expiresAtMs > now :: inner[did];
      entries := set did | did in inner :: inner[did];
      assert forall did :: did in inner ==> Get(old(inner), did, now) == Some(inner[did]);
    }

    method GetAt(did: string, now: i64) returns (entry: Option<Entry<B>>)
      ensures entry.Some? <==> did in inner && now < inner[did].expiresAtMs
      ensures entry.Some? ==> entry.value == inner[did]
    {
      if did in inner && inner[did].expiresAtMs > now {
        return Some(inner[did]);
      }
      return None;
    }
  }

  // ----- Every history -----

  datatype Event<+B> = Announce(advert: Advert<B>, at: i64) | Swept(at: i64)

  function Step<B>(peers: Peers<B>, e: Event<B>): Peers<B> {
    match e
    case Announce(a, at) => Upsert(peers, a, at)
    case Swept(at) => Sweep(peers, at)
  }

  function After<B>(peers: Peers<B>, run: seq<Event<B>>): Peers<B>
    decreases |run|
  {
    if run == [] then peers else After(Step(peers, run[0]), run[1..])
  }

  /** Time does not run backwards, starts at `since` or later and ends by `until`. */
  predicate Clocked<B>(run: seq<Event<B>>, since: int, until: int)
    decreases |run|
  {
    if run == [] then since <= until else since <= run[0].at && Clocked(run[1..], run[0].at, until)
  }

  // ----- How long an announcement lasts -----

  ghost predicate Timely<B(!new)>(e: Entry<B>) {
    && 1 <= e.advert.ttlSeconds <= MAX_ADVERT_TTL_SECONDS
    && e.expiresAtMs == Expiry(e.advert)
    && e.advertExpiresMs == Expiry(e.advert) - TTL_GRACE_MS
    && e.lastSeenMs - MAX_ADVERT_SKEW_MS <= e.advert.timestamp <= e.lastSeenMs + MAX_ADVERT_SKEW_MS
  }

  ghost predicate AllTimely<B(!new)>(peers: Peers<B>) {
    forall did :: did in peers ==> did != "" && peers[did].advert.did == did && Timely(peers[did])
  }

  lemma WrapExact(x: int)
    requires Fits(x)
    ensures Wrap(x) == x
  {
  }

  lemma StepTimely<B(!new)>(peers: Peers<B>, e: Event<B>)
    requires AllTimely(peers) && e.at <= LATEST
    ensures AllTimely(Step(peers, e))
  {
    if e.Announce? && Accepts(peers, e.advert, e.at) {
      WrapExact(Expiry(e.advert));
    }
  }

  lemma {:induction false} RunTimely<B(!new)>(peers: Peers<B>, run: seq<Event<B>>, since: int, until: int)
    requires AllTimely(peers) && Clocked(run, since, until) && until <= LATEST
    ensures AllTimely(After(peers, run))
    decreases |run|
  {
    if run != [] {
      ClockedBound(run, since, until);
      StepTimely(peers, run[0]);
      RunTimely(Step(peers, run[0]), run[1..], run[0].at, until);
    }
  }

  lemma {:induction false} ClockedBound<B>(run: seq<Event<B>>, since: int, until: int)
    requires Clocked(run, since, until)
    ensures since <= until && (run != [] ==> run[0].at <= until)
    decreases |run|
  {
    if run != [] {
      ClockedBound(run[1..], run[0].at, until);
    }
  }

  /** A provider not heard from for four and a half minutes is not in the cache's answers any more, and no
      entry outlives its own announcement by more than the grace period. */
  lemma SilentIsForgotten<B(!new)>(run: seq<Event<B>>, until: int, did: string, now: i64)
    requires Clocked(run, -0x8000_0000_0000_0000, until) && until <= LATEST
    ensures var e := Get(After(map[], run), did, now);
            e.Some? ==> && now < e.value.lastSeenMs + 270_000
                        && now < e.value.advertExpiresMs + TTL_GRACE_MS
                        && e.value.advert.did == did
  {
    RunTimely<B>(map[], run, -0x8000_0000_0000_0000, until);
  }

  // ----- The latest announcement -----

  /** Nothing newer for the DID of `a` is announced in time. */
  ghost predicate NothingNewer<B(!new)>(run: seq<Event<B>>, a: Advert<B>) {
    forall i :: 0 <= i < |run| && run[i].Announce? && run[i].advert.did == a.did && Timed(run[i].advert, run[i].at)
                ==> run[i].advert.timestamp <= a.timestamp
  }

  lemma {:induction false} EntryStays<B(!new)>(
    peers: Peers<B>, kept: Entry<B>, run: seq<Event<B>>, clock: int, now: i64)
    requires kept.advert.did in peers && peers[kept.advert.did] == kept
    requires Clocked(run, clock, now) && now < kept.expiresAtMs && NothingNewer(run, kept.advert)
    ensures kept.advert.did in After(peers, run) && After(peers, run)[kept.advert.did] == kept
    decreases |run|
  {
    if run != [] {
      ClockedBound(run, clock, now);
      ClockedBound(run[1..], run[0].at, now);
      if run[0].Announce? {
        TimedExactly(peers, run[0].advert, run[0].at);
      }
      EntryStays(Step(peers, run[0]), kept, run[1..], run[0].at, now);
    }
  }

  /** An announcement made in time, when nothing is held for its DID or something older, is accepted; and over
      every run in which nothing newer for the DID is announced in time it is what the cache returns, exactly
      until its end and thirty seconds more. */
  lemma NewerIsReturned<B(!new)>(peers: Peers<B>, a: Advert<B>, at: i64, run: seq<Event<B>>, now: i64)
    requires Timed(a, at) && a.timestamp <= LATEST
    requires a.did in peers ==> peers[a.did].advert.timestamp < a.timestamp
    requires Clocked(run, at, now) && NothingNewer(run, a)
    ensures var answer := Get(After(peers, [Announce(a, at)] + run), a.did, now);
            var end := a.timestamp + a.ttlSeconds * 1000;
            answer == Some(Entry(a, at, end + 30_000, end)) <==> now < end + 30_000
  {
    TimedExactly(peers, a, at);
    WrapExact(Expiry(a));
    var first := Announce(a, at);
    assert ([first] + run)[0] == first && ([first] + run)[1..] == run;
    var after := Step(peers, first);
    if now < Expiry(a) {
      EntryStays(after, EntryFor(a, at), run, at, now);
    }
  }

  // ----- Older announcements -----

  /** From `kept`, with the clock at `since`, the cache cannot have forgotten it before this time. */
  function Forgotten<B>(kept: Entry<B>, since: int): int {
    if kept.expiresAtMs < since then since else kept.expiresAtMs
  }

  /** An announcement that still lasts at time `from`, and is at most two minutes old then. */
  predicate CanReturn<B>(b: Advert<B>, from: int) {
    Expiry(b) > from && from <= b.timestamp + MAX_ADVERT_SKEW_MS
  }

  /** Nobody announces, for the DID of `kept`, anything newer, or anything that can return. */
  ghost predicate OnlyReplays<B(!new)>(run: seq<Event<B>>, kept: Entry<B>, from: int) {
    forall i :: 0 <= i < |run| && run[i].Announce? && run[i].advert.did == kept.advert.did
                ==> run[i].advert.timestamp <= kept.advert.timestamp && !CanReturn(run[i].advert, from)
  }

  /** The cache holds `kept`, or it may have forgotten it and what it holds has expired. */
  ghost predicate Guarded<B(!new)>(peers: Peers<B>, kept: Entry<B>, from: int, clock: int) {
    var did := kept.advert.did;
    (did in peers && peers[did] == kept)
    || (from <= clock && (did in peers ==> peers[did].expiresAtMs <= from))
  }

  /** Over every run from a cache that holds `kept`, only `kept` is returned for its DID. */
  lemma {:induction false} ReplaysAreNotReturned<B(!new)>(
    peers: Peers<B>, kept: Entry<B>, run: seq<Event<B>>, since: int, clock: int, now: i64)
    requires kept.advert.timestamp <= LATEST && since <= clock && Clocked(run, clock, now)
    requires var from := Forgotten(kept, since); Guarded(peers, kept, from, clock) && OnlyReplays(run, kept, from)
    ensures Get(After(peers, run), kept.advert.did, now) in {None, Some(kept)}
    decreases |run|
  {
    if run != [] {
      ClockedBound(run, clock, now);
      var e := run[0];
      if e.Announce? && Accepts(peers, e.advert, e.at) && e.advert.did == kept.advert.did {
        WrapExact(Expiry(e.advert));
      }
      assert Guarded(Step(peers, e), kept, Forgotten(kept, since), e.at);
      ReplaysAreNotReturned(Step(peers, e), kept, run[1..], since, e.at, now);
    }
  }

  /** A run in which, for the DID of `b`, only `b` is announced, and at the end `b` is returned. */
  ghost predicate ReturnsIn<B(!new)>(peers: Peers<B>, b: Advert<B>, since: int, run: seq<Event<B>>, now: i64) {
    && (forall i :: 0 <= i < |run| && run[i].Announce? && run[i].advert.did == b.did ==> run[i].advert == b)
    && Clocked(run, since, now)
    && Get(After(peers, run), b.did, now).Some? && Get(After(peers, run), b.did, now).value.advert == b
  }

  /** An announcement no newer than the one in the cache can come back over some run exactly when it lasts
      beyond the first moment at which the cache can have forgotten that one, and is at most two minutes
      old at that moment. */
  lemma OlderReturnsExactly<B(!new)>(peers: Peers<B>, b: Advert<B>, since: i64)
    requires b.did != "" && b.did in peers && peers[b.did].advert.did == b.did && Timely(peers[b.did])
    requires b != peers[b.did].advert && b.timestamp <= peers[b.did].advert.timestamp <= LATEST
    requires 1 <= b.ttlSeconds <= MAX_ADVERT_TTL_SECONDS
    ensures (exists run, now :: ReturnsIn(peers, b, since, run, now)) <==> CanReturn(b, Forgotten(peers[b.did], since))
  {
    var kept := peers[b.did];
    var from: i64 := Forgotten(kept, since);
    if CanReturn(b, from) {
      OlderRun(peers, b, since, from);
    }
    if run, now :| ReturnsIn(peers, b, since, run, now) && !CanReturn(b, from) {
      ReplaysAreNotReturned(peers, kept, run, since, since, now);
    }
  }

  lemma OlderRun<B(!new)>(peers: Peers<B>, b: Advert<B>, since: i64, from: i64)
    requires b.did != "" && b.did in peers && peers[b.did].expiresAtMs <= from && b.timestamp <= from && since <= from
    requires b.timestamp <= LATEST && 1 <= b.ttlSeconds <= MAX_ADVERT_TTL_SECONDS && CanReturn(b, from)
    ensures ReturnsIn(peers, b, since, [Swept(from), Announce(b, from)], from)
  {
    var e1: Event<B>, e2: Event<B> := Swept(from), Announce(b, from);
    var none: seq<Event<B>> := [];
    assert [e1, e2][1..] == [e2] && [e2][1..] == none;
    assert Clocked(none, from, from) && Clocked([e2], from, from);
    WrapExact(Expiry(b));
    var swept := Sweep(peers, from);
    assert b.did !in swept;
    var after := Upsert(swept, b, from);
    assert After(after, none) == after && After(swept, [e2]) == after;
  }

  const NEWER: Advert<string> := Advert("did:key:z", 100_000, 1, "newer")
  const OLDER: Advert<string> := Advert("did:key:z", 50_000, 120, "older")

  /** It does happen: a one-second announcement made at 100 s gives way to a two-minute one made at 50 s. */
  lemma OlderReturns()
    ensures var run := [Announce(NEWER, 100_000), Swept(131_000), Announce(OLDER, 131_000)];
            && Clocked(run, 0, 131_000)
            && Accepts(map[], NEWER, 100_000)
            && Get(After(map[], run), "did:key:z", 131_000) == Some(EntryFor(OLDER, 131_000))
  {
    var e1, e2, e3 := Announce(NEWER, 100_000), Swept(131_000), Announce(OLDER, 131_000);
    assert [e1, e2, e3][1..] == [e2, e3] && [e2, e3][1..] == [e3] && [e3][1..] == [];
    var none: seq<Event<string>> := [];
    assert Clocked(none, 131_000, 131_000) && Clocked([e3], 131_000, 131_000) && Clocked([e2, e3], 100_000, 131_000);
    var p1: Peers<string> := Upsert(map[], NEWER, 100_000);
    assert p1["did:key:z"].expiresAtMs == 131_000;
    var p2 := Sweep(p1, 131_000);
    assert p2 == map[];
    var p3 := Upsert(p2, OLDER, 131_000);
    assert After(p3, none) == p3 && After(p2, [e3]) == p3 && After(p1, [e2, e3]) == p3;
  }
}
