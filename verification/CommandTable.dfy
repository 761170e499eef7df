/**
 The table of commands a navigator offers: announced descriptors that are in date, valid and admitted,
 grouped by name, with a conflict when two contracts claim one name.
 */
module CommandTable {
  import opened Wrappers
  import opened Bytes
  import opened Commands
  import opened Texts
  import opened AuthorizationDigests
  import Decimal

  datatype OpenNodes = Nobody | Everybody | Listed(dids: set<string>)

  datatype Policy = Policy(open: OpenNodes, trusted: set<string>) {
    predicate Admits(admission: Admission, did: string) {
      match admission
      case Open =>
        (match open
         case Nobody => false
         case Everybody => true
         case Listed(dids) => did in dids)
      case Trusted => did in trusted
    }
  }

  /** What the table depends on besides the peers and the time. */
  datatype Rules = Rules(printable: Printable, encode: Encoding, registry: Registry, policy: Policy)

  datatype Peer = Peer(
    did: string, commands: seq<CommandDescriptor>, capabilities: seq<string>, fhsVersion: string, advertExpiresMs: int)

  datatype Offer = Offer(did: string, descriptor: CommandDescriptor)

  datatype Entry =
    | Active(descriptor: CommandDescriptor, fingerprint: bytes, nodes: seq<string>)
    | Conflict(count: nat)

  type Groups = map<string, map<bytes, seq<Offer>>>

  // ----- Versions -----

  /** Unsigned 32-bit decimal number; a plus sign and leading zeros are accepted. */
  function ParseU32(s: string): Option<nat> {
    var digits := if s != "" && s[0] == '+' then s[1..] else s;
    if digits != "" && Decimal.AllDigits(digits) && Decimal.Value(digits) < TWO_32
    then Some(Decimal.Value(digits))
    else None
  }

  /** At least version 0.2, the first whose beacons carry commands. */
  predicate VersionAtLeast(version: string) {
    var (major, rest) := SplitDot(version);
    match rest
    case None => false
    case Some(tail) =>
      match (ParseU32(major), ParseU32(SplitDot(tail).0))
      case (Some(a), Some(b)) => a > 0 || b >= 2
      case _ => false
  }

  /** Written as numbers, versions are compared as numbers; what follows the second number is ignored. */
  lemma VersionOfNumbers(major: nat, minor: nat, rest: string)
    requires rest == "" || rest[0] == '.'
    ensures VersionAtLeast(Decimal.OfNat(major) + "." + Decimal.OfNat(minor) + rest)
            <==> major < TWO_32 && minor < TWO_32 && (major > 0 || minor >= 2)
  {
    hide Decimal.OfNat, ParseU32, SplitDot, Decimal.Value;
    var a, b := Decimal.OfNat(major), Decimal.OfNat(minor);
    assert a + "." + b + rest == a + ("." + (b + rest));
    assert ("." + (b + rest))[1..] == b + rest;
    assert '.' !in a && '.' !in b;
    SplitDotAt(a, "." + (b + rest));
    SplitDotAt(b, rest);
    ParseWritten(major);
    ParseWritten(minor);
  }

  lemma ParseWritten(n: nat)
    ensures ParseU32(Decimal.OfNat(n)) == if n < TWO_32 then Some(n) else None
  {
    Decimal.ValueOfNat(n);
    assert Decimal.IsDigit(Decimal.OfNat(n)[0]);
  }

  // ----- Fingerprints -----

  const DOMAIN_CONTRACT: string := "fhs/cmd/contract"

  /** The bytes whose hash, in hexadecimal, is the fingerprint of a descriptor. */
  function Fingerprint(encode: Encoding, d: CommandDescriptor): bytes {
    Framed(Ascii(DOMAIN_CONTRACT), encode(Contract(d)))
  }

  /** Two descriptors share a fingerprint exactly when they differ at most in summary and descriptions. */
  lemma FingerprintIsContract(encode: Encoding, d: CommandDescriptor, e: CommandDescriptor)
    requires forall a, b :: encode(a) == encode(b) ==> a == b
    ensures Fingerprint(encode, d) == Fingerprint(encode, e) <==> Contract(d) == Contract(e)
  {
    var domain := Ascii(DOMAIN_CONTRACT);
    assert forall i :: 0 <= i < |domain| ==> domain[i] != 0;
    FramedIdentifies(domain, domain, encode(Contract(d)), encode(Contract(e)));
  }

  // ----- Admitted offers -----

  ghost predicate Accepted(rules: Rules, peer: Peer, now: int) {
    peer.commands != [] && peer.advertExpiresMs > now && VersionAtLeast(peer.fhsVersion)
    && ValidDescriptors(rules.printable, rules.encode, peer.commands, peer.capabilities, rules.registry)
  }

  predicate Admitted(rules: Rules, did: string, d: CommandDescriptor) {
    d.capabilityId in rules.registry && rules.policy.Admits(rules.registry[d.capabilityId].admission, did)
  }

  function AdmittedOffers(rules: Rules, did: string, commands: seq<CommandDescriptor>): seq<Offer> {
    if commands == [] then []
    else
      var d := commands[|commands| - 1];
      AdmittedOffers(rules, did, commands[..|commands| - 1]) + if Admitted(rules, did, d) then [Offer(did, d)] else []
  }

  ghost function PeerOffers(rules: Rules, peer: Peer, now: int): seq<Offer> {
    if Accepted(rules, peer, now) then AdmittedOffers(rules, peer.did, peer.commands) else []
  }

  ghost function Offers(rules: Rules, peers: seq<Peer>, now: int): seq<Offer> {
    if peers == [] then []
    else Offers(rules, peers[..|peers| - 1], now) + PeerOffers(rules, peers[|peers| - 1], now)
  }

  /** An offer counts when some peer in date, with a valid announcement, makes it and the policy admits it. */
  ghost predicate Offered(rules: Rules, peers: seq<Peer>, now: int, o: Offer) {
    exists p :: p in peers && p.did == o.did && o.descriptor in p.commands && Accepted(rules, p, now)
                && Admitted(rules, o.did, o.descriptor)
  }

  lemma {:induction false} AdmittedOffersExactly(rules: Rules, did: string, commands: seq<CommandDescriptor>, o: Offer)
    ensures o in AdmittedOffers(rules, did, commands)
            <==> o.did == did && o.descriptor in commands && Admitted(rules, did, o.descriptor)
  {
    if commands != [] {
      AdmittedOffersExactly(rules, did, commands[..|commands| - 1], o);
      assert commands == commands[..|commands| - 1] + [commands[|commands| - 1]];
    }
  }

  lemma {:induction false} OffersExactly(rules: Rules, peers: seq<Peer>, now: int, o: Offer)
    ensures o in Offers(rules, peers, now) <==> Offered(rules, peers, now, o)
  {
    hide Accepted, Admitted;
    if peers != [] {
      var init, p := peers[..|peers| - 1], peers[|peers| - 1];
      assert peers == init + [p];
      OffersExactly(rules, init, now, o);
      AdmittedOffersExactly(rules, p.did, p.commands, o);
      assert Offered(rules, peers, now, o) <==> Offered(rules, init, now, o) || o in PeerOffers(rules, p, now);
    }
  }

  // ----- The entry for a name -----

  function Named(offers: seq<Offer>, name: string): seq<Offer> {
    if offers == [] then []
    else
      var o := offers[|offers| - 1];
      Named(offers[..|offers| - 1], name) + if o.descriptor.name == name then [o] else []
  }

  function Sharing(encode: Encoding, offers: seq<Offer>, fingerprint: bytes): seq<Offer> {
    if offers == [] then []
    else
      var o := offers[|offers| - 1];
      Sharing(encode, offers[..|offers| - 1], fingerprint)
      + if Fingerprint(encode, o.descriptor) == fingerprint then [o] else []
  }

  predicate OneContract(encode: Encoding, offers: seq<Offer>) {
    forall o, p :: o in offers && p in offers ==> Fingerprint(encode, o.descriptor) == Fingerprint(encode, p.descriptor)
  }

  function InsertOffer(o: Offer, s: seq<Offer>): seq<Offer> {
    if s == [] || !Below(s[0].did, o.did) then [o] + s else [s[0]] + InsertOffer(o, s[1..])
  }

  /** Stable sort by DID: offers of one DID keep their order. */
  function SortByDid(s: seq<Offer>): seq<Offer> {
    if s == [] then [] else InsertOffer(s[0], SortByDid(s[1..]))
  }

  function InsertNode(did: string, s: seq<string>): seq<string> {
    if s == [] || Below(did, s[0]) then [did] + s
    else if did == s[0] then s
    else [s[0]] + InsertNode(did, s[1..])
  }

  /** An ordered set of DIDs. */
  function Nodes(offers: seq<Offer>): seq<string> {
    if offers == [] then [] else InsertNode(offers[0].did, Nodes(offers[1..]))
  }

  lemma {:induction false} SortKeeps(s: seq<Offer>)
    ensures |SortByDid(s)| == |s| && forall x :: x in SortByDid(s) <==> x in s
  {
    if s != [] {
      SortKeeps(s[1..]);
      InsertKeeps(s[0], SortByDid(s[1..]));
      assert s == [s[0]] + s[1..];
    }
  }

  lemma {:induction false} InsertKeeps(o: Offer, s: seq<Offer>)
    ensures |InsertOffer(o, s)| == |s| + 1 && forall x :: x in InsertOffer(o, s) <==> x == o || x in s
  {
    if s != [] && Below(s[0].did, o.did) {
      InsertKeeps(o, s[1..]);
      assert s == [s[0]] + s[1..];
    }
  }

  ghost predicate Leads(did: string, offers: seq<Offer>) {
    forall x :: x in offers ==> !Below(x.did, did)
  }

  /** The first offer after sorting has the least DID. */
  lemma {:induction false} SortLeads(s: seq<Offer>)
    requires s != []
    ensures SortByDid(s) != [] && Leads(SortByDid(s)[0].did, s)
  {
    SortKeeps(s[1..]);
    BelowIrreflexive(s[0].did);
    assert s == [s[0]] + s[1..];
    if s[1..] != [] {
      SortLeads(s[1..]);
      var t := SortByDid(s[1..]);
      if Below(t[0].did, s[0].did) {
        BelowIsStrict(t[0].did, s[0].did);
      } else {
        forall x | x in s[1..] ensures !Below(x.did, s[0].did) {
          NotBelowTransitive(x.did, t[0].did, s[0].did);
        }
      }
    }
  }

  lemma {:induction false} NodesSorted(offers: seq<Offer>)
    ensures Ascending(Nodes(offers)) && forall d :: d in Nodes(offers) <==> exists o :: o in offers && o.did == d
  {
    if offers != [] {
      NodesSorted(offers[1..]);
      InsertNodeSorted(offers[0].did, Nodes(offers[1..]));
      assert offers == [offers[0]] + offers[1..];
    }
  }

  lemma {:induction false} InsertNodeSorted(did: string, s: seq<string>)
    requires Ascending(s)
    ensures Ascending(InsertNode(did, s)) && forall d :: d in InsertNode(did, s) <==> d == did || d in s
    ensures InsertNode(did, s) != []
    ensures InsertNode(did, s)[0] == did || (s != [] && InsertNode(did, s)[0] == s[0])
  {
    if s != [] && !Below(did, s[0]) && did != s[0] {
      BelowIsTotal(did, s[0]);
      assert s == [s[0]] + s[1..];
      InsertNodeSorted(did, s[1..]);
      var t := InsertNode(did, s[1..]);
      assert Below(s[0], t[0]);
      assert forall i :: 0 < i < |[s[0]] + t| ==> ([s[0]] + t)[i] == t[i - 1];
    }
  }

  /** What the table says about a name some offers carry. */
  function EntryOf(encode: Encoding, named: seq<Offer>): Entry
    requires named != []
  {
    if OneContract(encode, named) then
      SortKeeps(named);
      var sorted := SortByDid(named);
      Active(sorted[0].descriptor, Fingerprint(encode, sorted[0].descriptor), Nodes(sorted))
    else
      Conflict(|named|)
  }

  /** The whole table. */
  ghost function TableOf(encode: Encoding, offers: seq<Offer>): map<string, Entry> {
    map o | o in offers && Named(offers, o.descriptor.name) != []
      :: o.descriptor.name := EntryOf(encode, Named(offers, o.descriptor.name))
  }

  // ----- Building the table -----

  ghost predicate GroupedBy(encode: Encoding, named: seq<Offer>, m: map<bytes, seq<Offer>>) {
    forall f :: (f in m <==> Sharing(encode, named, f) != []) && (f in m ==> m[f] == Sharing(encode, named, f))
  }

  ghost predicate Grouped(encode: Encoding, offers: seq<Offer>, groups: Groups) {
    forall n :: (n in groups <==> Named(offers, n) != [])
                && (n in groups ==> GroupedBy(encode, Named(offers, n), groups[n]))
  }

  function AddToGroups(encode: Encoding, groups: Groups, o: Offer): Groups {
    var n, f := o.descriptor.name, Fingerprint(encode, o.descriptor);
    var m := if n in groups then groups[n] else map[];
    var list := if f in m then m[f] else [];
    groups[n := m[f := list + [o]]]
  }

  lemma FilterSnoc(encode: Encoding, offers: seq<Offer>, o: Offer, n: string, f: bytes)
    ensures Named(offers + [o], n) == Named(offers, n) + if o.descriptor.name == n then [o] else []
    ensures Sharing(encode, offers + [o], f)
            == Sharing(encode, offers, f) + if Fingerprint(encode, o.descriptor) == f then [o] else []
  {
    assert (offers + [o])[..|offers|] == offers;
  }

  lemma GroupedByStep(encode: Encoding, named: seq<Offer>, m: map<bytes, seq<Offer>>, o: Offer)
    requires GroupedBy(encode, named, m)
    ensures var f := Fingerprint(encode, o.descriptor);
            GroupedBy(encode, named + [o], m[f := (if f in m then m[f] else []) + [o]])
  {
    hide Fingerprint;
    forall f ensures Sharing(encode, named + [o], f)
                     == Sharing(encode, named, f) + if Fingerprint(encode, o.descriptor) == f then [o] else []
    {
      FilterSnoc(encode, named, o, "", f);
    }
  }

  lemma GroupedStep(encode: Encoding, offers: seq<Offer>, groups: Groups, o: Offer)
    requires Grouped(encode, offers, groups)
    ensures Grouped(encode, offers + [o], AddToGroups(encode, groups, o))
  {
    var after := AddToGroups(encode, groups, o);
    hide GroupedBy, Named, AddToGroups;
    forall k
      ensures (k in after <==> Named(offers + [o], k) != [])
              && (k in after ==> GroupedBy(encode, Named(offers + [o], k), after[k]))
    {
      GroupedAtStep(encode, offers, groups, o, k);
    }
  }

  ghost predicate GroupedAt(encode: Encoding, offers: seq<Offer>, groups: Groups, n: string) {
    (n in groups <==> Named(offers, n) != []) && (n in groups ==> GroupedBy(encode, Named(offers, n), groups[n]))
  }

  lemma GroupedAtStep(encode: Encoding, offers: seq<Offer>, groups: Groups, o: Offer, k: string)
    requires GroupedAt(encode, offers, groups, k)
    ensures GroupedAt(encode, offers + [o], AddToGroups(encode, groups, o), k)
  {
    hide GroupedBy, Named, Sharing, Fingerprint;
    FilterSnoc(encode, offers, o, k, []);
    var named := Named(offers, k);
    if k == o.descriptor.name {
      NothingGrouped(encode);
      GroupedByStep(encode, named, if k in groups then groups[k] else map[], o);
    } else {
      assert named + [] == named;
    }
  }

  lemma NothingGrouped(encode: Encoding)
    ensures GroupedBy(encode, [], map[])
  {
  }

  datatype Reason = OldVersion | InvalidCommands

  ghost function Rejections(rules: Rules, peers: seq<Peer>, now: int): seq<(string, Reason)> {
    if peers == [] then []
    else Rejections(rules, peers[..|peers| - 1], now) + Rejection(rules, peers[|peers| - 1], now)
  }

  /** A peer with commands and in date is refused for its version, or else for an invalid announcement. */
  ghost function Rejection(rules: Rules, p: Peer, now: int): seq<(string, Reason)> {
    if p.commands == [] || p.advertExpiresMs <= now then []
    else if !VersionAtLeast(p.fhsVersion) then [(p.did, OldVersion)]
    else if ValidDescriptors(rules.printable, rules.encode, p.commands, p.capabilities, rules.registry) then []
    else [(p.did, InvalidCommands)]
  }

  method AddPeer(rules: Rules, p: Peer, now: int, before: Groups, ghost offers: seq<Offer>)
    returns (groups: Groups, rejected: seq<(string, Reason)>)
    requires Grouped(rules.encode, offers, before)
    ensures Grouped(rules.encode, offers + PeerOffers(rules, p, now), groups)
    ensures rejected == Rejection(rules, p, now)
  {
    hide Grouped, ValidDescriptors, VersionAtLeast, AddToGroups;
    groups, rejected := before, [];
    assert offers + [] == offers;
    if p.commands == [] || p.advertExpiresMs <= now {
      return;
    }
    if !VersionAtLeast(p.fhsVersion) {
      return groups, [(p.did, OldVersion)];
    }
    var valid := ValidateDescriptors(rules.printable, rules.encode, p.commands, p.capabilities, rules.registry);
    if !valid {
      return groups, [(p.did, InvalidCommands)];
    }
    for j := 0 to |p.commands|
      invariant Grouped(rules.encode, offers + AdmittedOffers(rules, p.did, p.commands[..j]), groups)
    {
      var d := p.commands[j];
      ghost var so := offers + AdmittedOffers(rules, p.did, p.commands[..j]);
      assert p.commands[..j + 1][..j] == p.commands[..j];
      if Admitted(rules, p.did, d) {
        GroupedStep(rules.encode, so, groups, Offer(p.did, d));
        groups := AddToGroups(rules.encode, groups, Offer(p.did, d));
        assert so + [Offer(p.did, d)] == offers + AdmittedOffers(rules, p.did, p.commands[..j + 1]);
      } else {
        assert so == offers + AdmittedOffers(rules, p.did, p.commands[..j + 1]);
      }
    }
    assert p.commands[..|p.commands|] == p.commands;
  }

  // ----- From groups to entries -----

  function SharingAny(encode: Encoding, offers: seq<Offer>, keys: set<bytes>): seq<Offer> {
    if offers == [] then []
    else
      var o := offers[|offers| - 1];
      SharingAny(encode, offers[..|offers| - 1], keys) + if Fingerprint(encode, o.descriptor) in keys then [o] else []
  }

  lemma {:induction false} SharingAnyAdds(encode: Encoding, offers: seq<Offer>, keys: set<bytes>, f: bytes)
    requires f !in keys
    ensures |SharingAny(encode, offers, keys + {f})|
            == |SharingAny(encode, offers, keys)| + |Sharing(encode, offers, f)|
  {
    hide Fingerprint;
    if offers != [] {
      SharingAnyAdds(encode, offers[..|offers| - 1], keys, f);
    }
  }

  lemma {:induction false} SharingNone(encode: Encoding, offers: seq<Offer>)
    ensures SharingAny(encode, offers, {}) == []
  {
    if offers != [] {
      SharingNone(encode, offers[..|offers| - 1]);
    }
  }

  lemma {:induction false} SharingExactly(encode: Encoding, offers: seq<Offer>, f: bytes, o: Offer)
    ensures o in Sharing(encode, offers, f) <==> o in offers && Fingerprint(encode, o.descriptor) == f
  {
    hide Fingerprint;
    if offers != [] {
      SharingExactly(encode, offers[..|offers| - 1], f, o);
      assert offers == offers[..|offers| - 1] + [offers[|offers| - 1]];
    }
  }

  lemma {:induction false} SharingAll(encode: Encoding, offers: seq<Offer>, keys: set<bytes>)
    requires forall o :: o in offers ==> Fingerprint(encode, o.descriptor) in keys
    ensures SharingAny(encode, offers, keys) == offers
    ensures forall f :: keys == {f} ==> Sharing(encode, offers, f) == offers
  {
    hide Fingerprint;
    if offers != [] {
      var init := offers[..|offers| - 1];
      assert offers == init + [offers[|offers| - 1]];
      SharingAll(encode, init, keys);
    }
  }

  lemma GroupKeys(encode: Encoding, named: seq<Offer>, m: map<bytes, seq<Offer>>)
    requires GroupedBy(encode, named, m)
    ensures forall o :: o in named ==> Fingerprint(encode, o.descriptor) in m.Keys
    ensures forall f :: f in m ==> exists o :: o in named && Fingerprint(encode, o.descriptor) == f
  {
    hide Fingerprint, Sharing;
    forall o | o in named ensures Fingerprint(encode, o.descriptor) in m.Keys {
      SharingExactly(encode, named, Fingerprint(encode, o.descriptor), o);
    }
    forall f | f in m ensures exists o :: o in named && Fingerprint(encode, o.descriptor) == f {
      var o := m[f][0];
      SharingExactly(encode, named, f, o);
    }
  }

  lemma Single<T>(s: set<T>, x: T)
    requires x in s
    ensures |s| > 1 <==> exists y :: y in s && y != x
  {
    if s - {x} == {} {
      assert s == {x};
    } else {
      var y :| y in s - {x};
      assert |s - {x}| > 0 && |s - {x}| == |s| - 1;
    }
  }

  method CountOffers(encode: Encoding, m: map<bytes, seq<Offer>>, ghost named: seq<Offer>) returns (total: nat)
    requires GroupedBy(encode, named, m)
    ensures total == |named|
  {
    hide Fingerprint, Sharing, SharingAny;
    total := 0;
    var todo := m.Keys;
    SharingNone(encode, named);
    assert m.Keys - todo == {};
    while todo != {}
      invariant todo <= m.Keys && total == |SharingAny(encode, named, m.Keys - todo)|
    {
      var f :| f in todo;
      SharingAnyAdds(encode, named, m.Keys - todo, f);
      assert m.Keys - (todo - {f}) == m.Keys - todo + {f};
      total := total + |m[f]|;
      todo := todo - {f};
    }
    assert m.Keys - todo == m.Keys;
    GroupKeys(encode, named, m);
    SharingAll(encode, named, m.Keys);
  }

  method EntryOfGroup(encode: Encoding, m: map<bytes, seq<Offer>>, ghost named: seq<Offer>) returns (e: Entry)
    requires named != [] && GroupedBy(encode, named, m)
    ensures e == EntryOf(encode, named)
  {
    hide Fingerprint, Sharing, Nodes, SortByDid;
    GroupKeys(encode, named, m);
    ghost var g := Fingerprint(encode, named[0].descriptor);
    Single(m.Keys, g);
    if |m| > 1 {
      var nodes := CountOffers(encode, m, named);
      return Conflict(nodes);
    }
    assert m.Keys == {g};
    var f :| f in m;
    SharingAll(encode, named, {f});
    var offers := m[f];
    SortKeeps(offers);
    offers := SortByDid(offers);
    return Active(offers[0].descriptor, f, Nodes(offers));
  }

  method FromPeers(rules: Rules, peers: seq<Peer>, now: int)
    returns (entries: map<string, Entry>, rejected: seq<(string, Reason)>)
    ensures entries == TableOf(rules.encode, Offers(rules, peers, now))
    ensures rejected == Rejections(rules, peers, now)
  {
    hide PeerOffers, Rejection, EntryOf, GroupedBy, Named;
    var groups: Groups := map[];
    rejected := [];
    NothingNamed(rules.encode);
    for i := 0 to |peers|
      invariant Grouped(rules.encode, Offers(rules, peers[..i], now), groups)
      invariant rejected == Rejections(rules, peers[..i], now)
    {
      var more;
      groups, more := AddPeer(rules, peers[i], now, groups, Offers(rules, peers[..i], now));
      rejected := rejected + more;
      assert peers[..i + 1][..i] == peers[..i];
    }
    assert peers[..|peers|] == peers;
    entries := EntriesOf(rules.encode, groups, Offers(rules, peers, now));
  }

  lemma NothingNamed(encode: Encoding)
    ensures Grouped(encode, [], map[])
  {
  }

  lemma {:induction false} NamedExactly(offers: seq<Offer>, n: string, o: Offer)
    ensures o in Named(offers, n) <==> o in offers && o.descriptor.name == n
  {
    if offers != [] {
      NamedExactly(offers[..|offers| - 1], n, o);
      assert offers == offers[..|offers| - 1] + [offers[|offers| - 1]];
    }
  }

  /** The names in the table are those some offer carries. */
  lemma TableKeys(encode: Encoding, offers: seq<Offer>, n: string)
    ensures n in TableOf(encode, offers) <==> Named(offers, n) != []
    ensures n in TableOf(encode, offers) ==> TableOf(encode, offers)[n] == EntryOf(encode, Named(offers, n))
  {
    hide EntryOf, Named;
    if Named(offers, n) != [] {
      var o := Named(offers, n)[0];
      NamedExactly(offers, n, o);
    }
  }

  method EntriesOf(encode: Encoding, groups: Groups, ghost offers: seq<Offer>) returns (entries: map<string, Entry>)
    requires Grouped(encode, offers, groups)
    ensures entries == TableOf(encode, offers)
  {
    hide EntryOf, GroupedBy, Named, TableOf;
    entries := map[];
    var todo := groups.Keys;
    while todo != {}
      invariant todo <= groups.Keys && entries.Keys == groups.Keys - todo
      invariant forall n :: n in entries ==> entries[n] == EntryOf(encode, Named(offers, n))
    {
      var n :| n in todo;
      var e := EntryOfGroup(encode, groups[n], Named(offers, n));
      entries := entries[n := e];
      todo := todo - {n};
    }
    forall n ensures n in entries <==> n in TableOf(encode, offers) {
      TableKeys(encode, offers, n);
    }
    forall n | n in entries ensures entries[n] == TableOf(encode, offers)[n] {
      TableKeys(encode, offers, n);
    }
  }

  // ----- The order of peers -----

  ghost predicate DistinctDids(peers: seq<Peer>) {
    forall i, j :: 0 <= i < j < |peers| ==> peers[i].did != peers[j].did
  }

  /** A DID makes at most one offer of each name. */
  ghost predicate OnePerDid(offers: seq<Offer>) {
    forall o, p :: o in offers && p in offers && o.did == p.did && o.descriptor.name == p.descriptor.name ==> o == p
  }

  lemma DistinctPeers(rules: Rules, peers: seq<Peer>, now: int)
    requires DistinctDids(peers)
    ensures OnePerDid(Offers(rules, peers, now))
  {
    hide ValidDescriptors, VersionAtLeast, Admitted;
    var os := Offers(rules, peers, now);
    forall o, p | o in os && p in os && o.did == p.did && o.descriptor.name == p.descriptor.name ensures o == p {
      OffersExactly(rules, peers, now, o);
      OffersExactly(rules, peers, now, p);
      var a :| a in peers && a.did == o.did && o.descriptor in a.commands && Accepted(rules, a, now);
      var b :| b in peers && b.did == p.did && p.descriptor in b.commands;
      assert a == b;
      var i :| 0 <= i < |a.commands| && a.commands[i] == o.descriptor;
      var j :| 0 <= j < |a.commands| && a.commands[j] == p.descriptor;
      NamesDiffer(rules.printable, rules.encode, a.commands, a.capabilities, rules.registry, i, j);
    }
  }

  lemma {:induction false} OffersConcat(rules: Rules, a: seq<Peer>, b: seq<Peer>, now: int)
    ensures Offers(rules, a + b, now) == Offers(rules, a, now) + Offers(rules, b, now)
  {
    hide PeerOffers;
    if b == [] {
      assert a + b == a;
    } else {
      var init, p := b[..|b| - 1], b[|b| - 1];
      assert (a + b)[..|a + b| - 1] == a + init;
      OffersConcat(rules, a, init, now);
    }
  }

  lemma TakeOut<T>(s: seq<T>, x: T) returns (j: nat)
    requires x in s
    ensures j < |s| && s == s[..j] + [x] + s[j + 1..]
    ensures multiset(s[..j] + s[j + 1..]) == multiset(s) - multiset{x}
  {
    j :| j < |s| && s[j] == x;
    assert s == s[..j] + [x] + s[j + 1..];
  }

  lemma Shuffles<T>(a: seq<T>, x: seq<T>, b: seq<T>)
    ensures multiset(a + x + b) == multiset(a + b + x)
  {
  }

  lemma {:induction false} OffersPermuted(rules: Rules, peers: seq<Peer>, others: seq<Peer>, now: int)
    requires multiset(peers) == multiset(others)
    ensures multiset(Offers(rules, peers, now)) == multiset(Offers(rules, others, now))
    decreases |peers|
  {
    hide PeerOffers;
    if peers == [] {
      assert |multiset(others)| == |others|;
    } else {
      var init, p := peers[..|peers| - 1], peers[|peers| - 1];
      assert peers == init + [p];
      assert p in multiset(others);
      var j := TakeOut(others, p);
      var a, b := others[..j], others[j + 1..];
      OffersPermuted(rules, init, a + b, now);
      OffersConcat(rules, a + [p], b, now);
      OffersConcat(rules, a, [p], now);
      OffersConcat(rules, a, b, now);
      var mine := PeerOffers(rules, p, now);
      assert Offers(rules, [p], now) == mine by {
        assert [p][..0] == [];
        assert Offers(rules, [], now) == [];
      }
      Shuffles(Offers(rules, a, now), mine, Offers(rules, b, now));
    }
  }

  lemma {:induction false} NamedCounts(offers: seq<Offer>, n: string, o: Offer)
    ensures multiset(Named(offers, n))[o] == if o.descriptor.name == n then multiset(offers)[o] else 0
  {
    if offers != [] {
      NamedCounts(offers[..|offers| - 1], n, o);
      assert offers == offers[..|offers| - 1] + [offers[|offers| - 1]];
    }
  }

  lemma SameElements<T>(a: seq<T>, b: seq<T>)
    requires multiset(a) == multiset(b)
    ensures |a| == |b| && forall x :: x in a <==> x in b
  {
    assert |multiset(a)| == |a| && |multiset(b)| == |b|;
    forall x ensures x in a <==> x in b {
      assert x in a <==> x in multiset(a);
      assert x in b <==> x in multiset(b);
    }
  }

  /** Where the active descriptor comes from, and which nodes are listed. */
  lemma EntryMeaning(encode: Encoding, named: seq<Offer>)
    requires named != []
    ensures EntryOf(encode, named).Active? <==> OneContract(encode, named)
    ensures EntryOf(encode, named).Conflict? ==> EntryOf(encode, named).count == |named|
    ensures EntryOf(encode, named).Active? ==>
              var e := EntryOf(encode, named);
              && Ascending(e.nodes) && (forall d :: d in e.nodes <==> exists o :: o in named && o.did == d)
              && e.nodes != [] && Offer(e.nodes[0], e.descriptor) in named
              && e.fingerprint == Fingerprint(encode, e.descriptor)
  {
    hide Fingerprint, SortByDid, Nodes;
    SortKeeps(named);
    SortLeads(named);
    var sorted := SortByDid(named);
    var nodes := Nodes(sorted);
    NodesSorted(sorted);
    var least := sorted[0].did;
    assert least in nodes;
    assert nodes[0] in nodes;
    var o :| o in sorted && o.did == nodes[0];
    assert !Below(nodes[0], least);
    if nodes[0] != least {
      var j :| 0 <= j < |nodes| && nodes[j] == least;
      AscendingPairs(nodes, 0, j);
    }
  }

  lemma EntryIgnoresOrder(encode: Encoding, named: seq<Offer>, others: seq<Offer>, n: string)
    requires named != [] && multiset(named) == multiset(others) && OnePerDid(named)
    requires forall o :: o in named ==> o.descriptor.name == n
    ensures others != [] && EntryOf(encode, named) == EntryOf(encode, others)
  {
    hide EntryOf, Fingerprint;
    SameElements(named, others);
    EntryMeaning(encode, named);
    EntryMeaning(encode, others);
    if OneContract(encode, named) {
      var e, f := EntryOf(encode, named), EntryOf(encode, others);
      AscendingUnique(e.nodes, f.nodes);
    }
  }

  lemma NamedOnePerDid(offers: seq<Offer>, n: string)
    requires OnePerDid(offers)
    ensures OnePerDid(Named(offers, n)) && forall o :: o in Named(offers, n) ==> o.descriptor.name == n
  {
    hide Named;
    forall o | o in Named(offers, n) ensures o in offers && o.descriptor.name == n {
      NamedExactly(offers, n, o);
    }
  }

  /** Peers with distinct DIDs give one table, in whatever order they are listed. */
  lemma TableIgnoresPeerOrder(rules: Rules, peers: seq<Peer>, others: seq<Peer>, now: int)
    requires DistinctDids(peers) && multiset(peers) == multiset(others)
    ensures TableOf(rules.encode, Offers(rules, peers, now)) == TableOf(rules.encode, Offers(rules, others, now))
  {
    hide TableOf, Offers, EntryOf, Named, OnePerDid, DistinctDids;
    var a, b := Offers(rules, peers, now), Offers(rules, others, now);
    var t, u := TableOf(rules.encode, a), TableOf(rules.encode, b);
    DistinctPeers(rules, peers, now);
    OffersPermuted(rules, peers, others, now);
    forall n ensures (n in t <==> n in u) && (n in t ==> t[n] == u[n]) {
      TableKeys(rules.encode, a, n);
      TableKeys(rules.encode, b, n);
      NamedPermuted(a, b, n);
      SameElements(Named(a, n), Named(b, n));
      if n in t {
        NamedOnePerDid(a, n);
        EntryIgnoresOrder(rules.encode, Named(a, n), Named(b, n), n);
      }
    }
  }

  lemma NamedPermuted(a: seq<Offer>, b: seq<Offer>, n: string)
    requires multiset(a) == multiset(b)
    ensures multiset(Named(a, n)) == multiset(Named(b, n))
  {
    hide Named;
    forall o ensures multiset(Named(a, n))[o] == multiset(Named(b, n))[o] {
      NamedCounts(a, n, o);
      NamedCounts(b, n, o);
    }
  }

  // ----- What an entry says about the peers -----

  ghost predicate OffersName(rules: Rules, peers: seq<Peer>, now: int, n: string, o: Offer) {
    o.descriptor.name == n && Offered(rules, peers, now, o)
  }

  /** A name is in the table exactly when some peer offers it; it is active exactly when all offers of it
      share one contract, and then lists the offering nodes in order and shows the first one's descriptor. */
  lemma TableMeaning(rules: Rules, peers: seq<Peer>, now: int, n: string)
    ensures var t := TableOf(rules.encode, Offers(rules, peers, now));
            && (n in t <==> exists o :: OffersName(rules, peers, now, n, o))
            && (n in t ==>
                && (t[n].Active? <==>
                    forall o, p :: OffersName(rules, peers, now, n, o) && OffersName(rules, peers, now, n, p)
                                   ==> Fingerprint(rules.encode, o.descriptor)
                                       == Fingerprint(rules.encode, p.descriptor))
                && (t[n].Active? ==>
                    && Ascending(t[n].nodes)
                    && (forall d :: d in t[n].nodes <==> exists o :: OffersName(rules, peers, now, n, o) && o.did == d)
                    && t[n].nodes != [] && OffersName(rules, peers, now, n, Offer(t[n].nodes[0], t[n].descriptor))
                    && t[n].fingerprint == Fingerprint(rules.encode, t[n].descriptor)))
  {
    hide TableOf, Offers, EntryOf, Named, Fingerprint, Offered;
    var os := Offers(rules, peers, now);
    var named := Named(os, n);
    TableKeys(rules.encode, os, n);
    forall o ensures o in named <==> OffersName(rules, peers, now, n, o) {
      NamedExactly(os, n, o);
      OffersExactly(rules, peers, now, o);
    }
    if named != [] {
      assert OffersName(rules, peers, now, n, named[0]);
      EntryMeaning(rules.encode, named);
    }
  }

  /** A node counts for a name, spelled out: its announcement has not expired, its version and descriptors are
      valid, and one of them has the name and a capability of the registry, which is open to it or, when only
      trusted nodes may offer it, trusts it. */
  ghost predicate Counts(rules: Rules, p: Peer, now: int, n: string, d: CommandDescriptor) {
    && now < p.advertExpiresMs && VersionAtLeast(p.fhsVersion)
    && ValidDescriptors(rules.printable, rules.encode, p.commands, p.capabilities, rules.registry)
    && d in p.commands && d.name == n && d.capabilityId in rules.registry
    && var admission := rules.registry[d.capabilityId].admission;
       && (admission == Trusted ==> p.did in rules.policy.trusted)
       && (admission == Open ==>
             rules.policy.open == Everybody || (rules.policy.open.Listed? && p.did in rules.policy.open.dids))
  }

  lemma OfferCounts(rules: Rules, peers: seq<Peer>, now: int, n: string, o: Offer)
    ensures OffersName(rules, peers, now, n, o)
            <==> exists p :: p in peers && p.did == o.did && Counts(rules, p, now, n, o.descriptor)
  {
    hide VersionAtLeast, ValidDescriptors;
    if OffersName(rules, peers, now, n, o) {
      var p :| p in peers && p.did == o.did && o.descriptor in p.commands && Accepted(rules, p, now)
               && Admitted(rules, o.did, o.descriptor);
      assert Counts(rules, p, now, n, o.descriptor);
    }
    if p :| p in peers && p.did == o.did && Counts(rules, p, now, n, o.descriptor) {
      assert Accepted(rules, p, now) && Admitted(rules, o.did, o.descriptor);
    }
  }

  /** A name is listed exactly when a node counts for it, and an active one lists exactly those nodes. */
  lemma ListedExactly(rules: Rules, peers: seq<Peer>, now: int, n: string)
    ensures var t := TableOf(rules.encode, Offers(rules, peers, now));
            && (n in t <==> exists p, d :: p in peers && Counts(rules, p, now, n, d))
            && (n in t && t[n].Active? ==>
                  forall did :: did in t[n].nodes
                                <==> exists p, d :: p in peers && p.did == did && Counts(rules, p, now, n, d))
  {
    hide TableOf, Offers, Counts, OffersName;
    TableMeaning(rules, peers, now, n);
    forall o
      ensures OffersName(rules, peers, now, n, o)
              <==> exists p :: p in peers && p.did == o.did && Counts(rules, p, now, n, o.descriptor)
    {
      OfferCounts(rules, peers, now, n, o);
    }
    forall p, d | p in peers && Counts(rules, p, now, n, d) ensures OffersName(rules, peers, now, n, Offer(p.did, d)) {
      assert Offer(p.did, d).did == p.did && Offer(p.did, d).descriptor == d;
    }
  }

  /** The nodes whose offer of `n` counts. */
  ghost function OfferingDids(rules: Rules, peers: seq<Peer>, now: int, n: string): set<string> {
    set o | o in Offers(rules, peers, now) && o.descriptor.name == n :: o.did
  }

  /** A conflict counts every node offering the name, once each. */
  lemma ConflictCounts(rules: Rules, peers: seq<Peer>, now: int, n: string)
    requires DistinctDids(peers)
    ensures var t := TableOf(rules.encode, Offers(rules, peers, now));
            n in t && t[n].Conflict? ==> t[n].count == |OfferingDids(rules, peers, now, n)| >= 2
  {
    hide TableOf, Offers, EntryOf, Named, Fingerprint, DistinctDids;
    var os := Offers(rules, peers, now);
    var named := Named(os, n);
    TableKeys(rules.encode, os, n);
    if named != [] {
      EntryMeaning(rules.encode, named);
      DistinctPeers(rules, peers, now);
      forall o ensures o in named <==> o in os && o.descriptor.name == n {
        NamedExactly(os, n, o);
      }
      NoRepeats(rules, peers, now);
      forall o ensures multiset(named)[o] <= 1 {
        NamedCounts(os, n, o);
      }
      CountDids(named);
      assert OfferingDids(rules, peers, now, n) == (set o | o in named :: o.did);
      if |named| == 1 {
        assert OneContract(rules.encode, named);
      }
    }
  }

  lemma {:induction false} CountDids(named: seq<Offer>)
    requires forall o :: multiset(named)[o] <= 1
    requires forall o, p :: o in named && p in named && o.did == p.did ==> o == p
    ensures |set o | o in named :: o.did| == |named|
  {
    if named != [] {
      var init, o := named[..|named| - 1], named[|named| - 1];
      assert named == init + [o];
      assert multiset(named) == multiset(init) + multiset{o};
      forall x ensures multiset(init)[x] <= multiset(named)[x] {
      }
      assert multiset(named)[o] == multiset(init)[o] + 1;
      assert o !in multiset(init);
      CountDids(init);
      assert (set p | p in named :: p.did) == (set p | p in init :: p.did) + {o.did};
    }
  }

  lemma {:induction false} AdmittedNoRepeats(rules: Rules, did: string, commands: seq<CommandDescriptor>, o: Offer)
    ensures multiset(AdmittedOffers(rules, did, commands))[o] <= multiset(commands)[o.descriptor]
    ensures o.did != did ==> multiset(AdmittedOffers(rules, did, commands))[o] == 0
  {
    hide Admitted;
    if commands != [] {
      var init, d := commands[..|commands| - 1], commands[|commands| - 1];
      AdmittedNoRepeats(rules, did, init, o);
      assert commands == init + [d];
      var before, added := AdmittedOffers(rules, did, init), if Admitted(rules, did, d) then [Offer(did, d)] else [];
      assert AdmittedOffers(rules, did, commands) == before + added;
      hide AdmittedOffers;
      assert multiset(before + added)[o] == multiset(before)[o] + multiset(added)[o];
      assert multiset(init + [d])[o.descriptor] == multiset(init)[o.descriptor] + multiset([d])[o.descriptor];
    }
  }

  lemma {:induction false} DistinctOnce<T>(s: seq<T>, x: T)
    requires forall i, j :: 0 <= i < j < |s| ==> s[i] != s[j]
    ensures multiset(s)[x] <= 1
  {
    if s != [] {
      DistinctOnce(s[..|s| - 1], x);
      assert s == s[..|s| - 1] + [s[|s| - 1]];
    }
  }

  lemma PeerNoRepeats(rules: Rules, p: Peer, now: int, o: Offer)
    ensures multiset(PeerOffers(rules, p, now))[o] <= if o.did == p.did then 1 else 0
  {
    hide ValidDescriptors, VersionAtLeast, AdmittedOffers;
    if Accepted(rules, p, now) {
      AdmittedNoRepeats(rules, p.did, p.commands, o);
      forall i, j | 0 <= i < j < |p.commands| ensures p.commands[i] != p.commands[j] {
        if p.commands[i] == p.commands[j] {
          NamesDiffer(rules.printable, rules.encode, p.commands, p.capabilities, rules.registry, i, j);
        }
      }
      DistinctOnce(p.commands, o.descriptor);
    }
  }

  lemma {:induction false} NoRepeats(rules: Rules, peers: seq<Peer>, now: int)
    requires DistinctDids(peers)
    ensures forall o :: multiset(Offers(rules, peers, now))[o] <= 1
  {
    hide PeerOffers;
    if peers != [] {
      var init, p := peers[..|peers| - 1], peers[|peers| - 1];
      NoRepeats(rules, init, now);
      var before, mine := Offers(rules, init, now), PeerOffers(rules, p, now);
      assert multiset(before + mine) == multiset(before) + multiset(mine);
      forall o ensures multiset(before + mine)[o] <= 1 {
        PeerNoRepeats(rules, p, now, o);
        if o in before {
          OffersExactly(rules, init, now, o);
          assert o.did != p.did;
        }
      }
    }
  }
}
