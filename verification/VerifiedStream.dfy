/**
 Reading signed envelopes off a stream: frames of at most 33 MiB, those without a valid signature skipped,
 until five of them come in a row. Each frame within the limit first asks for its share of the decoding
 budget; which of the requests are granted is a parameter here, and `DecodeBudget` says when they are.
 */
module VerifiedStream {
  import opened Wrappers
  import opened Bytes
  import opened Wire
  import opened EnvelopeScan
  import DecodeBudget

  const MAX_INVALID_FRAMES: nat := 5

  type Verify = bytes -> Verified

  /** Whether the budget grants the request of a given number, from 0 on. */
  type Grants = nat -> bool

  datatype Fault = BadPrefix | TooLong | Overloaded | CutShort | Undecodable | TooManyInvalid

  datatype Read = Ended | Failed(why: Fault) | Got(body: bytes, rest: bytes)

  datatype Outcome = Over | Broken(why: Fault) | Next(envelope: Envelope, rest: bytes, asked: nat)

  /** The limit is checked before asking, and the body is read after. */
  function ReadFrame(granted: bool, s: bytes): (r: Read)
    ensures r.Got? ==> |r.rest| < |s|
  {
    match RustLength(s)
    case Closed => Ended
    case BadLength => Failed(BadPrefix)
    case Length(len, rest) =>
      if len > DecodeBudget.MAX_FRAME_BYTES then Failed(TooLong)
      else if !granted then Failed(Overloaded)
      else if |rest| < len then Failed(CutShort)
      else Got(rest[..len], rest[len..])
  }

  /** The loop of one call, `invalid` frames having failed and `asked` requests having been made so far. */
  function ReadVerified(verify: Verify, grants: Grants, s: bytes, invalid: nat, asked: nat): (r: Outcome)
    ensures r.Next? ==> |r.rest| < |s|
    decreases |s|
  {
    match ReadFrame(grants(asked), s)
    case Ended => Over
    case Failed(why) => Broken(why)
    case Got(body, rest) =>
      match verify(body)
      case Malformed => Broken(Undecodable)
      case Genuine(e) => Next(e, rest, asked + 1)
      case Unsigned =>
        if invalid + 1 >= MAX_INVALID_FRAMES then Broken(TooManyInvalid)
        else ReadVerified(verify, grants, rest, invalid + 1, asked + 1)
  }

  method NextVerified(verify: Verify, grants: Grants, stream: bytes, before: nat) returns (r: Outcome)
    ensures r == ReadVerified(verify, grants, stream, 0, before)
  {
    hide ReadFrame;
    var s, asked := stream, before;
    var invalid := 0;
    while true
      invariant ReadVerified(verify, grants, s, invalid, asked) == ReadVerified(verify, grants, stream, 0, before)
      decreases |s|
    {
      var frame := ReadFrame(grants(asked), s);
      match frame {
        case Ended => return Over;
        case Failed(why) => return Broken(why);
        case Got(body, rest) =>
          asked := asked + 1;
          var verdict := verify(body);
          match verdict {
            case Malformed => return Broken(Undecodable);
            case Genuine(e) => return Next(e, rest, asked);
            case Unsigned =>
              if invalid + 1 >= MAX_INVALID_FRAMES {
                return Broken(TooManyInvalid);
              }
              invalid := invalid + 1;
              s := rest;
          }
      }
    }
  }

  // ----- A whole session -----

  /** The envelopes handed over, and how it ended; `None` when the stream was closed between frames. */
  datatype Log = Log(envelopes: seq<Envelope>, end: Option<Fault>)

  function Then(e: Envelope, log: Log): Log { Log([e] + log.envelopes, log.end) }

  /** One call after another until the stream ends or breaks. */
  function Session(verify: Verify, grants: Grants, s: bytes, invalid: nat, asked: nat): Log
    decreases |s|
  {
    match ReadVerified(verify, grants, s, invalid, asked)
    case Over => Log([], None)
    case Broken(why) => Log([], Some(why))
    case Next(e, rest, more) => Then(e, Session(verify, grants, rest, 0, more))
  }

  lemma ReadsFrame(payload: bytes, rest: bytes)
    requires |payload| <= DecodeBudget.MAX_FRAME_BYTES
    ensures forall granted ::
              ReadFrame(granted, EncodeVarint(|payload|) + payload + rest)
              == if granted then Got(payload, rest) else Failed(Overloaded)
  {
    hide VarintSize, Varint, EncodeVarint, RustLength;
    var prefix, s := EncodeVarint(|payload|), payload + rest;
    Concat(prefix, payload, rest);
    ReadsLength(|payload|, s);
    assert s[..|payload|] == payload && s[|payload|..] == rest;
  }

  lemma ReadsLength(n: nat, s: bytes)
    requires n <= DecodeBudget.MAX_FRAME_BYTES
    ensures RustLength(EncodeVarint(n) + s) == Length(n, s)
  {
    FrameSizeRust(n);
    VarintRoundTrip(n, 10, s);
    hide VarintSize, Varint, EncodeVarint;
    assert (EncodeVarint(n) + s)[|EncodeVarint(n)|..] == s;
    assert n % TWO_64 == n;
  }

  lemma FrameSizeRust(n: nat)
    requires n <= DecodeBudget.MAX_FRAME_BYTES
    ensures VarintSize(n) <= 10
  {
    var a := n / 128;
    var b := a / 128;
    var c := b / 128;
    assert c < 128 && VarintSize(c) == 1;
    assert VarintSize(b) <= 2;
    assert VarintSize(a) <= 3;
  }

  /** What a list of payloads amounts to, `invalid` frames having failed just before. */
  function Heard(verify: Verify, grants: Grants, payloads: seq<bytes>, invalid: nat, asked: nat): Log
    decreases |payloads|
  {
    if payloads == [] then Log([], None)
    else if !grants(asked) then Log([], Some(Overloaded))
    else
      match verify(payloads[0])
      case Malformed => Log([], Some(Undecodable))
      case Genuine(e) => Then(e, Heard(verify, grants, payloads[1..], 0, asked + 1))
      case Unsigned =>
        if invalid + 1 >= MAX_INVALID_FRAMES then Log([], Some(TooManyInvalid))
        else Heard(verify, grants, payloads[1..], invalid + 1, asked + 1)
  }

  lemma {:induction false} SessionHeard(verify: Verify, grants: Grants, payloads: seq<bytes>, invalid: nat, asked: nat)
    requires forall p :: p in payloads ==> |p| <= DecodeBudget.MAX_FRAME_BYTES
    ensures Session(verify, grants, Frames(payloads), invalid, asked) == Heard(verify, grants, payloads, invalid, asked)
    decreases |payloads|
  {
    hide ReadFrame, Frames;
    if payloads == [] {
      NoFrames();
    } else {
      var p, more := payloads[0], payloads[1..];
      ReadsFrame(p, Frames(more));
      FramesStep(payloads);
      SessionHeard(verify, grants, more, if verify(p).Unsigned? then invalid + 1 else 0, asked + 1);
    }
  }

  lemma NoFrames()
    ensures Frames([]) == [] && forall granted :: ReadFrame(granted, []) == Ended
  {
  }

  lemma FramesStep(payloads: seq<bytes>)
    requires payloads != []
    ensures Frames(payloads) == EncodeVarint(|payloads[0]|) + payloads[0] + Frames(payloads[1..])
  {
  }

  /** A frame that announces more than 33 MiB breaks the stream, whatever the budget and whatever follows. */
  lemma OverlongRefused(n: nat, rest: bytes)
    requires 34_603_008 < n < TWO_64
    ensures forall granted :: ReadFrame(granted, EncodeVarint(n) + rest) == Failed(TooLong)
  {
    Varint64Size(n);
    VarintRoundTrip(n, 10, rest);
    assert (EncodeVarint(n) + rest)[|EncodeVarint(n)|..] == rest;
    hide VarintSize, Varint, EncodeVarint;
    assert n % TWO_64 == n;
  }

  /** The limits of the two implementations are not one: a whole frame is read here and refused there exactly
      between 16 and 33 MiB. */
  lemma LimitsPart(payload: bytes, rest: bytes)
    requires |payload| < 0x100_0000_0000_0000
    ensures var s := EncodeVarint(|payload|) + payload + rest;
            ReadFrame(true, s).Got? && DecodeLengthPrefixed(s).TooLarge? <==> 16_777_216 < |payload| <= 34_603_008
  {
    hide ReadFrame, DecodeLengthPrefixed;
    Concat(EncodeVarint(|payload|), payload, rest);
    FrameByLength(|payload|, payload + rest);
    if |payload| <= 34_603_008 {
      ReadsFrame(payload, rest);
    } else {
      OverlongRefused(|payload|, payload + rest);
    }
  }

  lemma Varint64Size(n: nat)
    requires n < TWO_64
    ensures VarintSize(n) <= 10
  {
    EightBytes();
    assert Pow128(10) == 128 * (128 * Pow128(8));
    VarintSizeBound(n, 10);
  }

  /** After any frames it ends the session with what they gave. */
  lemma {:induction false} OverlongEnds(
    verify: Verify, grants: Grants, payloads: seq<bytes>, n: nat, rest: bytes, invalid: nat, asked: nat)
    requires forall p :: p in payloads ==> |p| <= DecodeBudget.MAX_FRAME_BYTES
    requires 34_603_008 < n < TWO_64
    ensures var heard := Heard(verify, grants, payloads, invalid, asked);
            Session(verify, grants, Frames(payloads) + (EncodeVarint(n) + rest), invalid, asked)
            == if heard.end.Some? then heard else Log(heard.envelopes, Some(TooLong))
    decreases |payloads|
  {
    hide ReadFrame, Frames;
    var tail := EncodeVarint(n) + rest;
    if payloads == [] {
      NoFrames();
      OverlongRefused(n, rest);
      assert Frames(payloads) + tail == tail;
    } else {
      var p, more := payloads[0], payloads[1..];
      FramesStep(payloads);
      Concat(EncodeVarint(|p|) + p, Frames(more), tail);
      ReadsFrame(p, Frames(more) + tail);
      OverlongEnds(verify, grants, more, n, rest, if verify(p).Unsigned? then invalid + 1 else 0, asked + 1);
    }
  }

  // ----- What gets through -----

  function Genuines(verify: Verify, payloads: seq<bytes>): seq<Envelope> {
    if payloads == [] then []
    else
      match verify(payloads[0])
      case Genuine(e) => [e] + Genuines(verify, payloads[1..])
      case _ => Genuines(verify, payloads[1..])
  }

  /** Five payloads in a row from `i` on without a valid signature. */
  predicate InvalidRun(verify: Verify, payloads: seq<bytes>, i: nat) {
    i + 5 <= |payloads| && forall j :: i <= j < i + 5 ==> verify(payloads[j]).Unsigned?
  }

  ghost predicate FiveInvalid(verify: Verify, payloads: seq<bytes>) {
    exists i: nat :: InvalidRun(verify, payloads, i)
  }

  function Leading(verify: Verify, payloads: seq<bytes>): (n: nat)
    ensures n <= |payloads| && forall j :: 0 <= j < n ==> verify(payloads[j]).Unsigned?
    ensures n < |payloads| ==> !verify(payloads[n]).Unsigned?
  {
    if payloads == [] || !verify(payloads[0]).Unsigned? then 0
    else
      var m := Leading(verify, payloads[1..]);
      assert forall j :: 0 < j < m + 1 ==> payloads[j] == payloads[1..][j - 1];
      m + 1
  }

  lemma RunsStep(verify: Verify, payloads: seq<bytes>)
    requires payloads != []
    ensures FiveInvalid(verify, payloads)
            <==> FiveInvalid(verify, payloads[1..]) || Leading(verify, payloads) >= MAX_INVALID_FRAMES
  {
    hide Leading;
    if i: nat :| InvalidRun(verify, payloads, i) {
      if i > 0 {
        assert InvalidRun(verify, payloads[1..], i - 1);
      }
    }
    if i: nat :| InvalidRun(verify, payloads[1..], i) {
      forall j | i + 1 <= j < i + 1 + MAX_INVALID_FRAMES ensures verify(payloads[j]).Unsigned? {
        assert payloads[j] == payloads[1..][j - 1];
      }
      assert InvalidRun(verify, payloads, i + 1);
    }
    if Leading(verify, payloads) >= MAX_INVALID_FRAMES {
      assert InvalidRun(verify, payloads, 0);
    }
  }

  /** The requests of `n` frames are granted. */
  predicate Granted(grants: Grants, asked: nat, n: nat) { forall i :: asked <= i < asked + n ==> grants(i) }

  predicate AllDecode(verify: Verify, payloads: seq<bytes>) {
    forall i :: 0 <= i < |payloads| ==> !verify(payloads[i]).Malformed?
  }

  lemma {:induction false} HeardExactly(
    verify: Verify, grants: Grants, payloads: seq<bytes>, invalid: nat, asked: nat)
    requires invalid < MAX_INVALID_FRAMES
    ensures Heard(verify, grants, payloads, invalid, asked) == Log(Genuines(verify, payloads), None)
            <==> AllDecode(verify, payloads) && Granted(grants, asked, |payloads|)
                 && !FiveInvalid(verify, payloads) && Leading(verify, payloads) + invalid < MAX_INVALID_FRAMES
    decreases |payloads|
  {
    hide FiveInvalid;
    if payloads == [] {
      NoRun(verify);
    } else if grants(asked) && !verify(payloads[0]).Malformed? {
      RunsStep(verify, payloads);
      DecodeStep(verify, payloads);
      hide AllDecode;
      var more := payloads[1..];
      assert Granted(grants, asked, |payloads|) <==> Granted(grants, asked + 1, |more|);
      if verify(payloads[0]).Genuine? {
        HeardExactly(verify, grants, more, 0, asked + 1);
        ManyLead(verify, more);
        ThenInjective(
          verify(payloads[0]).envelope, Heard(verify, grants, more, 0, asked + 1), Log(Genuines(verify, more), None));
      } else if invalid + 1 < MAX_INVALID_FRAMES {
        HeardExactly(verify, grants, more, invalid + 1, asked + 1);
      }
    }
  }

  lemma DecodeStep(verify: Verify, payloads: seq<bytes>)
    requires payloads != []
    ensures AllDecode(verify, payloads) <==> !verify(payloads[0]).Malformed? && AllDecode(verify, payloads[1..])
  {
    if AllDecode(verify, payloads[1..]) {
      assert forall i :: 0 < i < |payloads| ==> payloads[i] == payloads[1..][i - 1];
    }
  }

  lemma ThenInjective(e: Envelope, a: Log, b: Log)
    ensures Then(e, a) == Then(e, b) <==> a == b
  {
    assert ([e] + a.envelopes)[1..] == a.envelopes && ([e] + b.envelopes)[1..] == b.envelopes;
  }

  lemma NoRun(verify: Verify)
    ensures !FiveInvalid(verify, [])
  {
  }

  lemma ManyLead(verify: Verify, payloads: seq<bytes>)
    ensures Leading(verify, payloads) >= MAX_INVALID_FRAMES ==> FiveInvalid(verify, payloads)
  {
    if Leading(verify, payloads) >= MAX_INVALID_FRAMES {
      assert InvalidRun(verify, payloads, 0);
    }
  }

  /** A session hands over exactly the envelopes with a valid signature, in order, and ends with the stream,
      if and only if every frame decodes, the budget grants every one, and there are never five in a row
      without a valid signature. */
  lemma SessionExactly(verify: Verify, grants: Grants, payloads: seq<bytes>)
    requires forall p :: p in payloads ==> |p| <= 34_603_008
    ensures Session(verify, grants, Frames(payloads), 0, 0) == Log(Genuines(verify, payloads), None)
            <==> AllDecode(verify, payloads) && Granted(grants, 0, |payloads|) && !FiveInvalid(verify, payloads)
  {
    hide Session, Heard, Genuines, FiveInvalid, Leading, Granted, AllDecode;
    SessionHeard(verify, grants, payloads, 0, 0);
    HeardExactly(verify, grants, payloads, 0, 0);
    ManyLead(verify, payloads);
  }

  /** The first refusal ends the session there, with what the frames before it gave. */
  lemma {:induction false} RefusalEnds(verify: Verify, grants: Grants, payloads: seq<bytes>, invalid: nat, asked: nat,
      k: nat)
    requires k < |payloads| && Granted(grants, asked, k) && !grants(asked + k)
    ensures var before := Heard(verify, grants, payloads[..k], invalid, asked);
            Heard(verify, grants, payloads, invalid, asked)
            == if before.end.Some? then before else Log(before.envelopes, Some(Overloaded))
    decreases |payloads|
  {
    if k > 0 {
      assert grants(asked) && payloads[..k][0] == payloads[0] && payloads[..k][1..] == payloads[1..][..k - 1];
      var next := if verify(payloads[0]).Unsigned? then invalid + 1 else 0;
      RefusalEnds(verify, grants, payloads[1..], next, asked + 1, k - 1);
    }
  }

  /** Whatever the frames and the budget, nothing is handed over that was not verified, and nothing out of
      order. */
  lemma {:induction false} HeardIsPrefix(verify: Verify, grants: Grants, payloads: seq<bytes>, invalid: nat, asked: nat)
    ensures Heard(verify, grants, payloads, invalid, asked).envelopes <= Genuines(verify, payloads)
    decreases |payloads|
  {
    if payloads != [] {
      HeardIsPrefix(verify, grants, payloads[1..], if verify(payloads[0]).Unsigned? then invalid + 1 else 0, asked + 1);
    }
  }
}
