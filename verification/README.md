# Verified model of the FHS SDK

FHS is a peer-to-peer network in which navigators publish missions, satellites bid for them and the
winner executes; the SDK implements it in Rust and again in TypeScript for the browser. This project
models the cores of both and proves what they are for. `dafny verify dfyconfig.toml` checks all of it.

Where Rust and TypeScript implement the same thing, the lemmas say when they agree for the tokenizers, the
command line grammar and the check of results, the canonical encodings, and the readers of varints; of the
expression parser and of descriptor validation, which are the same in both, there is one model.
Where the code does not do what it promises for every input, the model keeps the code's behaviour and a
lemma gives the exact condition.

## What is modelled

**Arithmetic engine** (`ArithmeticGrammar`, `ArithmeticSound`, `ArithmeticComplete`, `ArithmeticCorrect`,
`ArithmeticErrors`, `ArithmeticConventions`, `ArithmeticPrint`, `ArithmeticParser`, `ArithmeticLexer`,
`ArithmeticCheck`). Numbers are an abstract algebra with an "is zero" test. The grammar is given by derivation
trees; the five mutually recursive levels of the parser are proved sound and complete for it, so a value is
returned exactly for the token lists of the grammar without a zero divisor, and it is the value of their only
derivation; which error is reported is characterised for every other list. The parser that moves a cursor is
proved against this. Printing with the fewest parentheses is undone by parsing, and the check in front of the
engine bounds how deep the parser's calls for parentheses are nested at every moment, whether or not parsing
succeeds.

**Canonical encodings** (`Bytes`, `Decimal`, `CanonicalValue`, `AuthorizationDigests`, `BatchDigest`,
`DigestDomains`, `ScriptSort`, `ScriptDigests`, `WrittenForms`). SHA-256 is ideal, so every statement is about
the bytes hashed. `cv1` is a self-delimiting code: a decoder accepts exactly the encodings and recovers the
value, so equal bytes mean equal values up to the sign of zero. A batch preimage identifies the batch up to
the order of items with distinct ids and of each item's dependencies. The TypeScript builder, with its own
byte comparison and stable sort, writes the same bytes.

**Missions** (`BidSelection`, `BidWinner`, `ProviderCore`, `MissionProtocol`, `MissionSafety`, `MissionBids`).
A transition system with a pool of published messages that may be lost, delayed or received repeatedly, honest
navigators and satellites and anybody else. A mission executes at most once over all satellites, and each
execution has behind it the navigator's offer, this satellite's covering bid and the navigator's single
assignment. A run that executes is also given. What signatures leave out is modelled as unsigned: the
capabilities an offer requires and the terms by which a bid is ranked.

**Commands** (`Texts`, `Commands`, `CommandArgs`, `CommandLines`, `Utf16`, `CommandScript`, `CommandTable`).
Descriptor validation, the command line grammar in both languages, in TypeScript over UTF-16 units, the check
of results, and the table of active commands, which does not depend on the order of peers. Which characters
are printable and the protobuf bytes of a descriptor are parameters.

**Wire** (`Wire`, `EnvelopeScan`, `EnvelopeText`, `EnvelopeSigned`, `EnvelopeGroups`, `VerifiedStream`). Base
128 varints (Protocol Buffers Encoding, "Base 128 Varints"), length-prefixed frames, reassembly from arbitrary
chunks, decoding an envelope, finding its raw payload, sealing and verifying, what a signature covers and what
it leaves free, and reading verified envelopes off a stream.

**Resources, time and names** (`DecodeBudget`, `StreamLimiter`, `PeerCache`, `CivilDate`, `TimestampOrder`,
`TimestampScript`, `Base58`, `DidPrefix`). The decode budget under every interleaving of tasks, the stream
limiter, the cache of announcements, dates in the format of section 5.6 of RFC 3339, how their texts sort and
when they are those of JavaScript, base 58 and `did:key`.

## Where the code and its promises part

- `base58Decode(base58Encode(b))` is `b` exactly when `b` has a nonzero byte. A string of zero bytes comes
  back one byte longer and the empty string is refused (`Base58.Base58RoundTrip`). No key is affected.
- A waiting task that is dropped, as `rust/fhs/src/p2p/client.rs:263` and `:375` do when a mission times
  out, never lowers `WAITERS`. The counter is back at zero exactly if no wait was dropped
  (`DecodeBudget.CounterReturns`); after sixteen such drops an idle node lets nobody wait again
  (`DecodeBudget.DroppedWaitsBlock`).
- The cache documents that an announcement is accepted only when newer than the last one accepted
  (`rust/fhs/src/p2p/peer_cache.rs:145-147`). Once the entry has been forgotten an older announcement can
  come back, over some run exactly when it lasts longer and is at most two minutes old by the first moment
  the entry can be gone (`PeerCache.OlderReturnsExactly`, with an instance in `PeerCache.OlderReturns`).
- Lengths are written in 32 bits, so a value is recovered from its canonical bytes exactly when no length in
  it reaches 2^32 (`Bytes.FramingRecovers`, `CanonicalValue.RecoveredExactly`).
- Items that share an id are told apart by their order (`BatchDigest.DuplicateOrderShows`).
- The TypeScript tokenizer refuses some texts the Rust one accepts: dots that no digit comes before, and
  white space other than blank, tab and line feed (`ArithmeticLexer.TokenizersAgree`). The TypeScript
  varint reader refuses prefixes of nine or ten bytes (`Wire.DecodersAgree`).
- A bid window closes on any bid of the preferred provider. The winner is then final exactly if that bid
  covers the requirements and passes the filter, or nobody is allowed, or the filter bars the preferred
  provider and the winner cannot be ranked below anything (`BidSelection.EarlyCloseExactly`). A preferred
  provider outside the allowed list closes the window and wins nothing, where waiting would have given a
  winner (`BidSelection.BarredPreferredCloses`).
- A timestamp is said to be written as `Date.toISOString()` writes it (`rust/fhs/src/p2p/peer_cache.rs:270`).
  It is within the years 0 to 9999, and again before the year -99999 for as long as JavaScript has times, and
  nowhere else (`TimestampScript.TextsAgree`, with the year 10000 in `TimestampScript.TextsDiffer`). The texts
  sort as the times from the year -1 to the year 9999, and not a millisecond beyond
  (`TimestampOrder.TextOrdered`, `TimestampOrder.SpanIsLargest`).
- An envelope's signature is checked over the payload written first (`rust/fhs/src/signing.rs:246-276`), while
  decoding keeps the last (`rust/fhs/src/signing.rs:291`). What is handed over is what was signed exactly when
  the payload decoded is the first one (`EnvelopeSigned.HandedOverIsSigned`), as it is when there is only one
  (`EnvelopeSigned.OnePayloadIsSigned`). A second payload of another tag takes the place of the signed one
  (`EnvelopeSigned.SecondPayloadReplaces`, with an instance in `EnvelopeSigned.SecondPayloadInstance`). The
  payload's tag and the version are not signed at all: the same signature is good for the message of any tag of
  which the payload's bytes are an encoding (`EnvelopeSigned.TagAndVersionAreFree`).
- The limits of a frame are said to be the same in all nodes (`rust/fhs/src/p2p/framing.rs:4`). A whole frame is
  read in Rust and refused in TypeScript exactly between 16 and 33 MiB (`VerifiedStream.LimitsPart`).
- A deadline below 10^12 is taken for relative. Its relative and its absolute form mean the same exactly when
  the deadline is later than 10^12 milliseconds after the epoch or the offer was made at the epoch
  (`ProviderCore.FormsAgreeExactly`).
- A colon in a message id can move to the next field without changing the signed text
  (`EnvelopeText.ColonMoves`). No two envelopes with message ids without colons and `did:key` sources share it
  unless they agree in all that is signed (`EnvelopeSigned.SignedTogether`).
- Decoding skips a group of an unknown tag, and the scan for the payload refuses it. An envelope is decoded and
  refused exactly when its groups are unknown and nested within the recursion limit, and one of them stands
  before the first payload (`EnvelopeGroups.GroupsPart`, with an instance in `EnvelopeGroups.GroupInstance`).

## Model

| member | source | states |
|---|---|---|
| ArithmeticSound.ExpressionSound | packages/satellite-capabilities-wasm/src/lib.rs:391-407 | whatever the expression level reads is the yield of a derivation at that level whose value is the value returned |
| ArithmeticSound.TermSound | packages/satellite-capabilities-wasm/src/lib.rs:408-427 | the same for products and quotients, with no zero divisor in the derivation |
| ArithmeticSound.UnarySound | packages/satellite-capabilities-wasm/src/lib.rs:428-434 | the same for negation |
| ArithmeticSound.PowerSound | packages/satellite-capabilities-wasm/src/lib.rs:435-442 | the same for powers, whose exponent is a negation or a power, so `^` associates to the right |
| ArithmeticSound.AtomSound | packages/satellite-capabilities-wasm/src/lib.rs:443-463 | the same for numbers and parentheses |
| ArithmeticComplete.ExpressionComplete | packages/satellite-capabilities-wasm/src/lib.rs:391-407 | on the yield of any derivation followed by anything but a power of it, a zero divisor is reported; otherwise, unless a factor follows, the loop goes on from the derivation's value at what follows |
| ArithmeticCorrect.ParseCorrect | packages/satellite-capabilities-wasm/src/lib.rs:376-464 | a value is returned if and only if the tokens derive from the grammar without a zero divisor, and it is that derivation's value |
| ArithmeticCorrect.DerivationUnique | packages/satellite-capabilities/src/arithmetic.ts:98-162 | no token list has two derivations |
| ArithmeticCorrect.ParseErrors | packages/satellite-capabilities-wasm/src/lib.rs:376-464 | a derivable list fails only by division by zero, and exactly when it has a zero divisor; any other list fails |
| ArithmeticCorrect.DivisionByZeroFirst | packages/satellite-capabilities-wasm/src/lib.rs:417-419 | a zero divisor is reported while parsing, whatever tokens follow, unless it is the last operand and a power of it follows |
| ArithmeticCorrect.DivisionByZeroSettled | packages/satellite-capabilities-wasm/src/lib.rs:417-419 | it is reported whatever follows if and only if some division by zero has its divisor before the last operand |
| ArithmeticErrors.DivisionByZeroExactly | packages/satellite-capabilities-wasm/src/lib.rs:376-464 | for every token list, division by zero is reported if and only if some beginning of it, not followed by a caret, begins a derivation in which a division read by then has a divisor of zero |
| ArithmeticErrors.ZeroInAll | packages/satellite-capabilities-wasm/src/lib.rs:417-419 | in all its tokens a derivation has read a zero divisor if and only if it has no value |
| ArithmeticErrors.SyntaxErrorsExactly | packages/satellite-capabilities-wasm/src/lib.rs:381-464 | unless division by zero is reported, the outcome is that of a scan that knows only whether an operand is due and how many parentheses are open |
| ArithmeticConventions.OperatorsMean | packages/satellite-capabilities-wasm/src/lib.rs:391-463 | each operator computes its own operation, and parentheses nothing |
| ArithmeticConventions.OperatorsGroup | packages/satellite-capabilities-wasm/src/lib.rs:391-442 | differences and quotients group to the left, and powers to the right |
| ArithmeticConventions.ProductsBind | packages/satellite-capabilities-wasm/src/lib.rs:391-427 | products bind more than sums |
| ArithmeticConventions.PowersBind | packages/satellite-capabilities-wasm/src/lib.rs:428-442 | a power binds more than the sign before it and less than the one in its exponent |
| ArithmeticPrint.ParseUndoesPrint | packages/satellite-capabilities/src/arithmetic.ts:98-162 | parsing an expression printed with minimal parentheses gives the expression's own value or zero divisor |
| ArithmeticPrint.PrintInjective | packages/satellite-capabilities/src/arithmetic.ts:98-162 | two expressions are never printed alike |
| ArithmeticPrint.PrintShortest | packages/satellite-capabilities/src/arithmetic.ts:98-162 | no derivation of an expression is shorter than its print |
| ArithmeticParser.Parser.ParseAll | packages/satellite-capabilities-wasm/src/lib.rs:381-390 | the cursor parser terminates with the specified outcome, and its calls for parentheses are never nested deeper than the scan's maximum |
| ArithmeticParser.Parser.ParseExpression | packages/satellite-capabilities-wasm/src/lib.rs:391-407 | the loop over `+` and `-` consumes what the specification reads, and leaves the depth of active calls as it found it, equal to the parentheses open in the tokens consumed |
| ArithmeticParser.Parser.ParseTerm | packages/satellite-capabilities-wasm/src/lib.rs:408-427 | the loop over `*` and `/`, with the division check |
| ArithmeticParser.Parser.ParseUnary | packages/satellite-capabilities-wasm/src/lib.rs:428-434 | the negation level |
| ArithmeticParser.Parser.ParsePower | packages/satellite-capabilities-wasm/src/lib.rs:435-442 | the power level |
| ArithmeticParser.Parser.ParseAtom | packages/satellite-capabilities-wasm/src/lib.rs:443-463 | the atom level, which parses the inside of parentheses one call deeper |
| ArithmeticParser.BeforeBounded | apps/satellite-web/src/node/engine.ts:30-36 | the clamped scan of any consumed prefix is within that of the whole |
| ArithmeticLexer.Tokenize | packages/satellite-capabilities-wasm/src/lib.rs:321-374 | the Rust loop gives the tokens of the specification, or its rejection |
| ArithmeticLexer.ScriptTokenize | packages/satellite-capabilities/src/arithmetic.ts:20-67 | the TypeScript loop gives the tokens of its specification |
| ArithmeticLexer.TokenizersAgree | packages/satellite-capabilities/src/arithmetic.ts:20-67 | the TypeScript tokenizer accepts a text if and only if the Rust one does, every dot in it comes after a digit and its white space is blank, tab or line feed; then both give the same tokens |
| ArithmeticLexer.LexSpell | packages/satellite-capabilities-wasm/src/lib.rs:321-374 | tokens written out with any sufficient spacing are read back |
| ArithmeticLexer.SolvePrinted | packages/satellite-capabilities-wasm/src/lib.rs:467-476 | an expression printed with any spacing, tokenized and parsed, yields its own value |
| ArithmeticLexer.CheckInput | apps/satellite-web/src/node/engine.ts:26-37 | the loop computes the check: emptiness, length in UTF-16 units, characters, nesting |
| ArithmeticCheck.CheckCodes | apps/satellite-web/src/node/engine.ts:26-37 | which code each refused input gets: syntax for nothing and for foreign characters within 200 units, the limit for more units and for a part that opens 33 parentheses more than it closes |
| ArithmeticCheck.PrintedPassesExactly | apps/satellite-web/src/node/engine.ts:26-37 | a printed expression with any spacing passes if and only if it has at most 200 units and 32 parentheses within each other, and otherwise the limit is blamed |
| ArithmeticLexer.CheckedInputNesting | apps/satellite-web/src/node/engine.ts:26-37 | the tokens of a checked input, and any beginning of them, never have more than 32 parentheses open |
| ArithmeticLexer.SolveExpression | packages/satellite-capabilities-wasm/src/lib.rs:467-476 | the engine returns the specified answer, and on a checked input at most 32 of the parser's calls for parentheses are active at once, even when parsing fails |
| Bytes.FramingRecovers | rust/fhs/src/authorization.rs:42-49 | a length-prefixed string followed by anything is read back if and only if its length is below 2^32 |
| Bytes.SortIgnoresOrder | rust/fhs/src/authorization.rs:171-172 | sorting by bytes forgets exactly the order |
| Decimal.OfIntInjective | rust/fhs/src/authorization.rs:159-170 | the decimal texts written for numbers are distinct for distinct numbers |
| CanonicalValue.EncodeValue | rust/fhs/src/authorization.rs:86-138 | the recursive writer appends exactly the canonical bytes, or fails when there are none |
| CanonicalValue.EncodeEntries | rust/fhs/src/authorization.rs:121-130 | the loop over sorted keys writes each key and value |
| CanonicalValue.SortedKeys | rust/fhs/src/authorization.rs:123-124 | whatever order the hash map gives, the sorted keys are the same |
| CanonicalValue.DecodeEncode | rust/fhs/src/authorization.rs:86-138 | decoding an encoding followed by anything gives the value, with the sign of zero dropped, and exactly what followed |
| CanonicalValue.DecodesExactlyEncodings | rust/fhs/src/authorization.rs:86-138 | the decoder accepts a string if and only if it starts with the encoding of a normal value |
| CanonicalValue.EncodingIdentifies | rust/fhs/src/authorization.rs:84-138 | no encoding is a prefix of another, and two values share their bytes if and only if they are equal up to the sign of zero, at any depth and in any map order |
| CanonicalValue.EncodesCanonizable | rust/fhs/src/authorization.rs:97-100 | a value has canonical bytes if and only if no number in it is infinite or NaN and no artifact occurs |
| CanonicalValue.RecoveredExactly | rust/fhs/src/authorization.rs:42-49 | a value is recovered from its encoding, up to the sign of zero, if and only if every length in it, at any depth, fits 32 bits |
| AuthorizationDigests.FramedIdentifies | rust/fhs/src/authorization.rs:31-40 | a preimage determines its domain and its body, so different domains never collide |
| DigestDomains.PurposesApart | rust/fhs/src/authorization.rs:15-40 | preimages of any of the eleven domains coincide if and only if domain and body do |
| DigestDomains.PreimagesApart | rust/fhs/src/authorization.rs:15-40 | a batch, an IPFS file, a document and a command contract are never hashed from the same bytes |
| AuthorizationDigests.ChunksIdentify | rust/fhs/src/authorization.rs:75-82 | the preimages of two lists of chunks coincide only for equal domains and equal lists |
| AuthorizationDigests.IpfsIdentifies | rust/fhs/src/authorization.rs:66-71 | two IPFS preimages coincide if and only if the CIDs do and the contents do too or show a collision of the hash |
| AuthorizationDigests.ValueDigestIdentifies | rust/fhs/src/authorization.rs:141-145 | the preimages of two values coincide only for equal domains and values equal up to the sign of zero |
| WrittenForms.FramedForm | rust/fhs/src/authorization.rs:31-40 | domain, zero, version, zero, body |
| WrittenForms.ScalarForms | rust/fhs/src/authorization.rs:86-105 | the bytes of nothing, truth values, integers and numbers |
| WrittenForms.StringForms | rust/fhs/src/authorization.rs:106-113 | the bytes of a text and of a byte string |
| WrittenForms.ListForm | rust/fhs/src/authorization.rs:114-119 | the bytes of a list of two values |
| WrittenForms.ObjectForm | rust/fhs/src/authorization.rs:120-130 | the bytes of an object of one key |
| BatchDigest.BatchBody | rust/fhs/src/authorization.rs:148-183 | the loops write the specified bytes over the stably sorted items |
| BatchDigest.WriteItem | rust/fhs/src/authorization.rs:163-181 | one item is written with its sorted dependencies between its fields |
| BatchDigest.BatchIdentifies | rust/fhs/src/authorization.rs:148-183 | two preimages coincide if and only if ids and expiry agree and, id by id, the bound fields of the items in order |
| BatchDigest.DistinctBatchIdentifies | rust/fhs/src/authorization.rs:148-183 | with distinct item ids, if and only if the items agree up to order and each one's dependencies up to order |
| BatchDigest.DuplicateOrderShows | rust/fhs/src/authorization.rs:160-161 | swapping two items with one id, wherever they stand in a batch, keeps the bytes if and only if they are the same item |
| BatchDigest.SortItemsStable | rust/fhs/src/authorization.rs:160-161 | sorting keeps the order of items with equal ids |
| WrittenForms.BatchForm | rust/fhs/src/authorization.rs:148-162 | the fields of a batch in the order they are written |
| WrittenForms.ItemForm | rust/fhs/src/authorization.rs:163-181 | the fields of an item in the order they are written |
| ScriptDigests.Parts.Done | packages/fhs-protocol/src/authorization.ts:51-60 | copying each part to its offset in one buffer gives the parts joined |
| ScriptDigests.FramedBytes | packages/fhs-protocol/src/authorization.ts:64-72 | the TypeScript framing hashes the same bytes as the Rust one |
| ScriptSort.ByteCompare | packages/fhs-protocol/src/authorization.ts:104-110 | the loop computes the difference of the first differing bytes, or of the lengths |
| ScriptSort.DifferenceOrders | packages/fhs-protocol/src/authorization.ts:104-110 | that difference is negative, zero or positive as the byte strings are ordered, equal or ordered the other way |
| ScriptSort.TextsSorted | packages/fhs-protocol/src/authorization.ts:155 | a list is what a stable sort by that difference may return if and only if it is what the Rust sort returns |
| ScriptSort.ItemsSorted | packages/fhs-protocol/src/authorization.ts:205 | the same for items sorted by id, those with equal ids staying in order |
| ScriptDigests.EncodeValue | packages/fhs-protocol/src/authorization.ts:113-166 | the TypeScript encoder, sorting keys by `byteCompare`, writes the same canonical bytes as the Rust one, and fails on the same values |
| ScriptDigests.BatchBytes | packages/fhs-protocol/src/authorization.ts:199-224 | the TypeScript batch, sorting items and dependencies by `byteCompare`, writes the same bytes as the Rust one |
| BidSelection.AboveIsOrder | rust/fhs/src/p2p/mission.rs:72-77 | ranking by trust, reputation and latency is a strict weak order, reputation by the total order of floats |
| BidSelection.WinnerCorrect | rust/fhs/src/p2p/mission.rs:58-78 | there is a winner if and only if some bid offers every required capability, and it is such a bid; it is the preferred provider's if that one has one, and otherwise the earliest of those none ranks above |
| BidWinner.WinnerExactly | rust/fhs/src/p2p/mission.rs:58-94 | the winner of a window, by names of trust levels, floats and latencies: the preferred provider's first contender or, if it has none, the contender none is trusted more than, among those trusted equally none has a greater reputation than, among those none has less latency than, and the first of those equal in all; there is one if and only if anyone contends, and never two |
| BidWinner.RankIsTrust | rust/fhs/src/p2p/mission.rs:35-43 | the rank orders delegated, standard, community, unverified and anything else in this order |
| BidWinner.GreaterIsLater | rust/fhs/src/p2p/mission.rs:75 | reputations are compared as floats in the total order of IEEE 754 |
| BidSelection.AllowedExactly | rust/fhs/src/p2p/mission.rs:83-94 | a bid is kept if and only if its provider is allowed and connected or reachable by address |
| BidSelection.WinnerEligible | rust/fhs/src/p2p/mission.rs:140-154 | a winner bid, covers everything required and passed the filter |
| BidSelection.EarlyCloseSafe | rust/fhs/src/p2p/node.rs:185-206 | once the preferred provider's bid counts, no later bid changes the winner |
| BidSelection.EarlyCloseExactly | rust/fhs/src/p2p/node.rs:168-206 | the winner is the same under every extension of the window if and only if the preferred provider's bid counts, or nobody is allowed, or the filter bars the preferred provider and the winner is of the highest trust, reputation and speed there are |
| BidSelection.BarredPreferredCloses | rust/fhs/src/p2p/node.rs:185-206 | a preferred provider that the filter bars closes the window without a winner, which the next bid would have been |
| BidSelection.EarlyWinnerIsFinal | rust/fhs/src/p2p/node.rs:170-213 | the winner of a window closed early is the winner of the whole delivery |
| BidSelection.BidCollector.Deliver | rust/fhs/src/p2p/node.rs:216-225 | a bid joins the open window of its mission or is dropped |
| BidSelection.BidCollector.Collect | rust/fhs/src/p2p/node.rs:170-213 | the window returns the bids of its mission in order of arrival, closes as soon as a bid of the preferred provider is there and otherwise when the time is over, and leaves other windows as they were delivered |
| ProviderCore.AssignmentBook.RememberIn | apps/satellite-web/src/node/provider-core.ts:55-62 | setting a key and evicting the oldest keys beyond 64 |
| ProviderCore.AssignmentBook.RecordOffer | apps/satellite-web/src/node/provider-core.ts:43-45 | the offers after recording one |
| ProviderCore.AssignmentBook.RecordAssign | apps/satellite-web/src/node/provider-core.ts:48-53 | an assignment to another provider changes nothing |
| ProviderCore.AssignmentBook.Consume | apps/satellite-web/src/node/provider-core.ts:68-80 | the answer and the used ids after a call |
| ProviderCore.RememberedHolds | apps/satellite-web/src/node/provider-core.ts:55-62 | after any history a map holds the 64 keys that entered last, in order of entry, each with its last recorded value |
| ProviderCore.RunIsHistory | apps/satellite-web/src/node/provider-core.ts:34-62 | after any history of calls both maps are such memories of what was recorded |
| ProviderCore.UsedAreServed | apps/satellite-web/src/node/provider-core.ts:69-79 | the used ids are those of the calls that succeeded |
| ProviderCore.ServedOnce | apps/satellite-web/src/node/provider-core.ts:68-80 | a mission is consumed at most once in any history |
| ProviderCore.ConsumeExactly | apps/satellite-web/src/node/provider-core.ts:68-80 | a mission can be consumed if and only if it has not been and its last offer and assignment are still remembered, from the connected navigator, for this provider and in time |
| ProviderCore.RefusalExactly | apps/satellite-web/src/node/provider-core.ts:68-78 | after any history, which reason a refusal has |
| ProviderCore.InTimeExactly | apps/satellite-web/src/node/provider-core.ts:28-29 | a call is in time up to a minute after the deadline, which counts from the offer when it is at most 10^12 and is a time itself above |
| ProviderCore.FormsAgreeExactly | apps/satellite-web/src/node/provider-core.ts:27-30 | the relative and the absolute form of one deadline authorize the same calls if and only if the deadline is later than 10^12 or the offer was made at the epoch |
| ProviderCore.ServedWasOffered | apps/satellite-web/src/node/provider-core.ts:64-80 | every consumption was preceded by the recording of a matching offer and assignment |
| MissionProtocol.StepKeeps | apps/satellite-web/src/node/satellite-node.ts:256-317 | every step of navigators, satellites and outsiders keeps the invariant |
| MissionProtocol.RunKeeps | rust/fhs/src/p2p/mission.rs:97-175 | the invariant holds after every run |
| MissionSafety.ExecutedAtMostOnce | apps/satellite-web/src/node/satellite-node.ts:427-441 | over every run a mission of a navigator is executed at most once over all satellites |
| MissionSafety.SatelliteExecutesOnce | apps/satellite-web/src/node/satellite-node.ts:427-441 | a satellite executes a mission id at most once, whoever asks |
| MissionSafety.ExecutionHasItsCauses | apps/satellite-web/src/node/satellite-node.ts:379-483 | every execution was preceded by the navigator's offer, in time, this satellite's covering bid and the navigator's only assignment of the mission, to this satellite |
| MissionProtocol.ExecutionIsCaused | apps/satellite-web/src/node/satellite-node.ts:429-436 | an authorized tool call has its causes in the log |
| MissionProtocol.AssignmentIsCaused | rust/fhs/src/p2p/mission.rs:140-169 | an assignment has behind it the navigator's offer and, when the winner follows the protocol, its covering bid |
| MissionSafety.MissionCanComplete | rust/fhs/src/p2p/mission.rs:97-175 | any satellite can come to execute a mission of any navigator, offered at any time with either form of deadline, at any time up to it and the grace |
| MissionBids.BidsOnce | apps/satellite-web/src/node/satellite-node.ts:268-290 | over every run a satellite bids for a mission at most once, only with arithmetic, and only after someone published a tool call for it that requires nothing else |
| Wire.EncodeVarintLoop | packages/fhs-protocol/src/wire.ts:85-94 | the loop writes the base 128 digits |
| Wire.DecodeVarint | packages/fhs-protocol/src/wire.ts:96-108 | the loop reads a varint of at most eight bytes |
| Wire.ReadVarint | rust/fhs/src/p2p/framing.rs:93-113 | the loop over 64-bit words reads a varint of at most ten bytes modulo 2^64 |
| Wire.VarintRoundTrip | packages/fhs-protocol/src/wire.ts:85-108 | decoding undoes encoding on any suffix |
| Wire.DecodersAgree | rust/fhs/src/p2p/framing.rs:93-113 | both readers give the same length and rest if and only if the prefix takes at most eight bytes |
| Wire.FrameRoundTrip | packages/fhs-protocol/src/wire.ts:47-78 | a frame followed by anything is decoded to its payload and its length |
| Wire.FrameByLength | packages/fhs-protocol/src/wire.ts:63-78 | a frame is judged by the length it announces: above 16 MiB it is refused, and otherwise it is incomplete or read by how much follows |
| Wire.FrameExtend | packages/fhs-protocol/src/wire.ts:63-78 | a frame once recognised or refused stays so when more bytes arrive |
| Wire.FrameReader.Feed | apps/satellite-web/src/node/satellite-node.ts:333-351 | one chunk yields the envelopes it completes, those before the first bad frame included, leaves the rest in the buffer, and fails exactly on a bad frame or, yielding nothing, on an overfull buffer |
| Wire.ReadStream | apps/satellite-web/src/node/satellite-node.ts:331-352 | reading chunk by chunk gives the envelopes, the rest and the success or failure that the specification of the reader gives |
| Wire.DrainSplit | apps/satellite-web/src/node/satellite-node.ts:340-350 | draining two pieces in turn is draining them joined |
| Wire.FeedAllIsDrain | apps/satellite-web/src/node/satellite-node.ts:331-352 | within the limit, reading chunks gives what draining the joined stream gives |
| Wire.ReassemblyExact | apps/satellite-web/src/node/satellite-node.ts:331-352 | however valid frames are cut, the reader yields exactly their envelopes in order and ends empty, if and only if no chunk ends more than 8 KiB after the last frame boundary before it begins |
| EnvelopeScan.RawEnvelopePayload | rust/fhs/src/signing.rs:246-284 | the scan terminates with the specified bytes |
| EnvelopeScan.FieldRoundTrip | rust/fhs/src/signing.rs:249-273 | any field of a supported wire type is read back, whatever follows |
| EnvelopeScan.ScanFindsPayload | rust/fhs/src/signing.rs:246-276 | for any fields in any order the scan returns the bytes of the first payload field, or nothing if there is none |
| EnvelopeScan.GroupsRefused | rust/fhs/src/signing.rs:268-272 | a group before the payload is refused |
| EnvelopeScan.VerifiesExactly | rust/fhs/src/signing.rs:288-302 | any fields verify as an envelope if and only if they merge to it, its texts are UTF-8, its payloads decode and its signature is valid for the signed text with the bytes of the first payload written; it is an error exactly when they cannot be read or merged |
| EnvelopeScan.MergeAnyOrder | rust/fhs/src/signing.rs:291 | merging fields with distinct tags one by one gives the same envelope in any order |
| EnvelopeScan.DecodesInAnyOrder | rust/fhs/src/signing.rs:291 | fields with distinct tags decode to the same envelope, or to an error, in any order |
| EnvelopeScan.VerifiesInAnyOrder | rust/fhs/src/signing.rs:288-302 | any rearrangement of the fields of an envelope verifies, as the same envelope, if and only if it can be read and its signature is valid for its payload bytes |
| EnvelopeScan.SealedVerifies | rust/fhs/src/p2p/wire.rs:208-220 | sealing and then verifying succeeds: written in any order, among any unknown fields, a sealed envelope verifies as itself |
| EnvelopeText.TextBindsPayload | rust/fhs/src/signing.rs:216-225 | with the other fields equal, the signed texts of two payloads coincide if and only if the payloads do |
| EnvelopeText.TextBindsMessageId | rust/fhs/src/signing.rs:216-225 | the same for message ids |
| EnvelopeText.TextBindsSource | rust/fhs/src/signing.rs:216-225 | the same for sources |
| EnvelopeText.TextBindsDest | rust/fhs/src/signing.rs:216-225 | the same for destinations |
| EnvelopeText.TextBindsTimestamp | rust/fhs/src/signing.rs:216-225 | the same for timestamps |
| EnvelopeText.TextIdentifies | rust/fhs/src/signing.rs:216-225 | with message ids without colons and `did:key` sources, two signed texts coincide if and only if all five fields do |
| EnvelopeText.ColonMoves | rust/fhs/src/signing.rs:216-225 | otherwise a colon can move from one field to the next |
| EnvelopeText.TextInstance | rust/fhs/src/signing.rs:216-225 | the form of the text |
| WrittenForms.EnvelopeForm | rust/fhs/src/signing.rs:246-276 | the bytes of an envelope: message id, source, destination, timestamp, version and signature have the tags 1 to 6 |
| EnvelopeSigned.HandedOverIsSigned | rust/fhs/src/signing.rs:288-302 | for any bytes that decode and that the scan accepts, the payload handed over is always the one signed if and only if it is the first payload written |
| EnvelopeSigned.OnePayloadIsSigned | rust/fhs/src/signing.rs:288-302 | with at most one payload, fields verify as an envelope if and only if they can be read, merge to it and its signature is valid for its own payload |
| EnvelopeSigned.SecondPayloadReplaces | rust/fhs/src/signing.rs:246-302 | fields that verify still do with a payload of another tag after them, and then that one is handed over |
| EnvelopeSigned.SecondPayloadInstance | rust/fhs/src/signing.rs:246-302 | four fields for which it happens, where no signature is valid for the payload handed over |
| EnvelopeSigned.TagAndVersionAreFree | rust/fhs/src/signing.rs:216-225 | a signed envelope with another payload tag and version verifies if and only if its payload decodes as the message of that tag and the version is UTF-8 |
| EnvelopeSigned.ChangeIsSeen | rust/fhs/src/signing.rs:288-302 | a check that accepts only the text of an envelope accepts it, and no envelope with its message id, source, destination, timestamp or payload changed |
| EnvelopeSigned.SignedTogether | rust/fhs/src/signing.rs:216-225 | envelopes with such ids and sources are signed by one text if and only if they differ at most in payload tag, version and signature |
| EnvelopeGroups.SkipsExactly | rust/fhs/src/signing.rs:291 | skipping a group reads up to its own end if and only if the groups in it are nested within the limit |
| EnvelopeGroups.GroupsPart | rust/fhs/src/signing.rs:246-302 | the decoder reads what the scan refuses if and only if every group is unknown and nested within the limit and one stands before the first payload |
| EnvelopeGroups.GroupsVerifyExactly | rust/fhs/src/signing.rs:288-302 | fields and groups verify as an envelope if and only if the groups can be skipped, none stands before the first payload, and the fields outside verify as it |
| EnvelopeGroups.OneGroup | rust/fhs/src/signing.rs:246-302 | with one unknown group between fields decoding gives the fields, and the scan refuses them if and only if no payload precedes the group |
| EnvelopeGroups.GroupInstance | rust/fhs/src/signing.rs:268-272 | an envelope that decodes and is refused |
| VerifiedStream.NextVerified | rust/fhs/src/p2p/framing.rs:135-154 | the loop hands over the next verified envelope, or ends or breaks as specified, which includes a request that the budget refuses |
| VerifiedStream.SessionHeard | rust/fhs/src/p2p/framing.rs:117-154 | a session over framed payloads depends only on the payloads and on what the budget grants |
| VerifiedStream.SessionExactly | rust/fhs/src/p2p/framing.rs:132-154 | a session hands over exactly the envelopes with a valid signature, in order, and ends with the stream, if and only if every frame decodes, the budget grants every one, and there are never five invalid frames in a row |
| VerifiedStream.RefusalEnds | rust/fhs/src/p2p/framing.rs:123-129 | the first refused frame ends a session with what the frames before it gave |
| VerifiedStream.OverlongRefused | rust/fhs/src/p2p/framing.rs:117-125 | a frame that announces more than 33 MiB is refused, whatever the budget and whatever follows |
| VerifiedStream.OverlongEnds | rust/fhs/src/p2p/framing.rs:117-154 | after any frames it ends the session with what they gave |
| VerifiedStream.LimitsPart | packages/fhs-protocol/src/wire.ts:17 | a whole frame is read in Rust and refused in TypeScript if and only if it has more than 16 and at most 33 MiB |
| VerifiedStream.HeardIsPrefix | rust/fhs/src/p2p/framing.rs:143-151 | what is handed over is a beginning of the envelopes that pass verification, in order |
| DecodeBudget.LegalFrameFits | rust/fhs/src/p2p/framing.rs:64-66 | the units of a frame are the fewest covering twice its length, and a legal frame fits the whole budget |
| DecodeBudget.StepKeeps | rust/fhs/src/p2p/framing.rs:64-80 | every atomic step of reserving, waiting, giving up, being dropped and releasing keeps the invariant |
| DecodeBudget.MemoryBounded | rust/fhs/src/p2p/framing.rs:6-10 | over every interleaving free and taken units add up to the total, and twice the bytes of frames being decoded is at most 128 MiB |
| DecodeBudget.WaitersBounded | rust/fhs/src/p2p/framing.rs:70-75 | at most sixteen tasks wait, less one for every dropped wait, though the counter may overshoot |
| DecodeBudget.WaiterIsServed | rust/fhs/src/p2p/framing.rs:74-79 | once the other tasks hold nothing, what a waiting task lacks is free and a run gives it its permit |
| DecodeBudget.RefusedExactly | rust/fhs/src/p2p/framing.rs:70-73 | a task that finds no room is refused if and only if sixteen places are taken by tasks or dropped waits |
| DecodeBudget.CounterReturns | rust/fhs/src/p2p/framing.rs:74-75 | with no reservation under way the counter equals the number of waits dropped in the run |
| DecodeBudget.DroppedWaitsBlock | rust/fhs/src/p2p/framing.rs:70-75 | sixteen dropped waits lead to an idle node on which no task waits in any later run |
| StreamLimiter.Limiter.TryAdmit | rust/fhs/src/p2p/limits.rs:40-55 | admission or refusal and the new counts |
| StreamLimiter.Limiter.DropPermit | rust/fhs/src/p2p/limits.rs:62-73 | the counts after a permit is dropped, without a zero entry |
| StreamLimiter.StepKeeps | rust/fhs/src/p2p/limits.rs:39-73 | the total is the number of live permits, each peer's count is that of its permits, within 64 and 8 |
| StreamLimiter.AdmissionExactly | rust/fhs/src/p2p/limits.rs:40-55 | after any history a stream is admitted if and only if fewer than 64 permits are live and fewer than 8 of its peer; with none live the limiter is empty |
| PeerCache.Cache.UpsertAt | rust/fhs/src/p2p/peer_cache.rs:152-208 | an announcement is accepted if and only if it has a DID, is made within two minutes, for 1 to 120 seconds, and is newer than what is held for its DID; it then takes its place, until its end and thirty seconds more |
| PeerCache.Cache.Live | rust/fhs/src/p2p/peer_cache.rs:210-215 | the entries not expired are kept and returned, the others forgotten |
| PeerCache.Cache.GetAt | rust/fhs/src/p2p/peer_cache.rs:236-243 | the entry, if not expired |
| PeerCache.SilentIsForgotten | rust/fhs/src/p2p/peer_cache.rs:100-106 | after any history an entry is returned for less than 270 seconds after its announcement was received and less than 30 seconds after that one's own expiry |
| PeerCache.NewerIsReturned | rust/fhs/src/p2p/peer_cache.rs:145-208 | over every run in which nothing newer for the DID is announced in time, an announcement accepted is what the cache returns, exactly until its end and thirty seconds more |
| PeerCache.OlderReturnsExactly | rust/fhs/src/p2p/peer_cache.rs:145-176 | over some run an announcement no newer than the one held comes back if and only if it lasts beyond the first moment the held one can be forgotten and is at most two minutes old then |
| PeerCache.OlderReturns | rust/fhs/src/p2p/peer_cache.rs:145-215 | a run in which it happens |
| PeerCache.ReplaysAreNotReturned | rust/fhs/src/p2p/peer_cache.rs:168-176 | over every run in which each other announcement for a DID is no newer than the one held and cannot come back, only the entry held is ever returned for it |
| CivilDate.CivilCorrect | rust/fhs/src/p2p/peer_cache.rs:277-287 | for every day number the algorithm gives a valid Gregorian date, and for the next day number the next date |
| CivilDate.Epoch | rust/fhs/src/p2p/peer_cache.rs:278-287 | day 0 is 1970-01-01 |
| CivilDate.CivilCounts | rust/fhs/src/p2p/peer_cache.rs:278-287 | from any day number, the date `n` days later is reached by `n` steps of the calendar |
| CivilDate.CivilOrdered | rust/fhs/src/p2p/peer_cache.rs:278-287 | dates are ordered as their day numbers |
| CivilDate.StampExact | rust/fhs/src/p2p/peer_cache.rs:272-287 | the fields are valid and recompose to the milliseconds |
| CivilDate.StampOrdered | rust/fhs/src/p2p/peer_cache.rs:272-287 | stamps are ordered as their milliseconds |
| CivilDate.Iso8601Injective | rust/fhs/src/p2p/peer_cache.rs:271-289 | different times have different texts |
| WrittenForms.EpochForm | rust/fhs/src/p2p/peer_cache.rs:404-406 | the text of the epoch |
| WrittenForms.SomeForm | rust/fhs/src/p2p/peer_cache.rs:404-406 | the text of a time in 2026 |
| TimestampOrder.TextOrdered | rust/fhs/src/p2p/peer_cache.rs:270-289 | from the year -1 to the year 9999 the texts sort as the times |
| TimestampOrder.SpanIsLargest | rust/fhs/src/p2p/peer_cache.rs:288 | one millisecond beyond either end they do not |
| TimestampScript.YearsAgree | rust/fhs/src/p2p/peer_cache.rs:288 | a year is written with as many digits and signs as in JavaScript if and only if it is within 0 to 9999 or before -99999 |
| TimestampScript.TextsAgree | rust/fhs/src/p2p/peer_cache.rs:270-289 | the text is that of `toISOString` if and only if the time is within the years 0 to 9999, or before the year -99999 and within the times JavaScript has |
| TimestampScript.TextsDiffer | rust/fhs/src/p2p/peer_cache.rs:288 | the first millisecond of the year 10000 is written `10000` here and `+010000` there |
| Base58.Base58Encode | packages/fhs-protocol/src/identity.ts:18-31 | the loops compute the specified encoding |
| Base58.Base58Decode | packages/fhs-protocol/src/identity.ts:33-49 | the loops compute the specified decoding |
| Base58.HexIsMinimal | packages/fhs-protocol/src/identity.ts:40-42 | the bytes read from padded hexadecimal digits are the number's fewest base 256 digits |
| Base58.DecodeOfEncode | packages/fhs-protocol/src/identity.ts:18-49 | decoding undoes encoding, except that a string of zeros comes back one byte longer |
| Base58.Base58RoundTrip | packages/fhs-protocol/src/identity.ts:18-49 | decoding undoes encoding if and only if some byte is not zero |
| Base58.DidOfKey | packages/fhs-protocol/src/identity.ts:52-67 | every 32-byte key is recovered from its DID |
| Base58.DidsAreKeys | packages/fhs-protocol/src/identity.ts:52-67 | a DID yields a key if and only if it is the DID of that 32-byte key |
| DidPrefix.DidsBegin | packages/fhs-protocol/src/identity.ts:52-55 | the DID of every 32-byte key begins with `did:key:z6Mk` |
| Commands.ValidateArgs | rust/fhs/src/commands.rs:356-372 | the scan accepts if and only if there are at most four arguments, each valid, with distinct names and the required ones first |
| Commands.ValidateDescriptor | rust/fhs/src/commands.rs:326-385 | a descriptor is accepted if and only if every condition on it holds |
| Commands.ValidateDescriptors | rust/fhs/src/commands.rs:389-419 | an announcement is accepted if and only if it is within the limits of number and size, sorted, and all its descriptors are valid |
| Commands.NamesDiffer | packages/fhs-protocol/src/commands.ts:203-206 | in a valid announcement no two commands share a name |
| CommandArgs.ReadText | rust/fhs/src/commands.rs:564-596 | the loop over parentheses decides the nesting limit as specified, after length and characters |
| CommandArgs.ParseArgs | rust/fhs/src/commands.rs:619-651 | the cursor loop gives the specified values or error |
| CommandLines.ParseExactly | rust/fhs/src/commands.rs:619-651 | a line parses to a list if and only if it is short enough and lays the list out in order with blanks around and between the tokens, leaving out only optional arguments |
| CommandLines.ParsedMeetsLimits | rust/fhs/src/commands.rs:558-651 | what is returned is a beginning of the declared arguments with every required one, each within its limits |
| CommandLines.WrittenParses | rust/fhs/src/commands.rs:558-651 | writing any admissible list with blanks, within the line limit, and parsing gives the list back |
| CommandLines.NestingMeans | rust/fhs/src/commands.rs:576-586 | a text is within the nesting limit if and only if no part of it opens that many more parentheses than it closes |
| CommandScript.IntMatches | packages/fhs-protocol/src/commands.ts:276 | the regular expression for integers matches exactly what the Rust conditions accept |
| CommandScript.NumMatches | packages/fhs-protocol/src/commands.ts:277 | the same for numbers |
| CommandScript.ScriptReadText | packages/fhs-protocol/src/commands.ts:298-316 | the loop over code points decides the nesting limit as specified, after length and characters |
| CommandScript.ScriptParseArgs | packages/fhs-protocol/src/commands.ts:334-357 | the loop that searches and slices UTF-16 units gives the specified values or error |
| CommandScript.TakesEncoded | packages/fhs-protocol/src/commands.ts:343-352 | cutting a token off the UTF-16 units of a text and trimming gives the units of what cutting and trimming characters gives |
| CommandScript.ValuesAgree | packages/fhs-protocol/src/commands.ts:284-331 | on the UTF-16 units of any token both value parsers give the same canonical text or the same kind of error |
| CommandScript.LinesAgree | packages/fhs-protocol/src/commands.ts:334-357 | for every valid descriptor and line, both parsers give the same values, or the same kind of error about the same argument, in TypeScript over the UTF-16 units of the line |
| CommandScript.ResultsAgree | packages/fhs-protocol/src/commands.ts:372-399 | both implementations show the same text for a result, or neither shows any |
| CommandScript.ResultIsFixed | rust/fhs/src/commands.rs:708-746 | a result once accepted is accepted again unchanged, and an accepted number keeps its value |
| CommandScript.CanonicalKeepsAmount | rust/fhs/src/commands.rs:551-556 | dropping the sign of zero changes no number |
| CommandTable.VersionOfNumbers | rust/fhs/src/commands.rs:809-814 | written as numbers, a version is new enough if and only if it is at least 0.2 and both fit 32 bits |
| CommandTable.FingerprintIsContract | rust/fhs/src/commands.rs:422-429 | with an injective encoding, fingerprints coincide if and only if descriptors differ at most in summary and descriptions |
| CommandTable.AddPeer | rust/fhs/src/commands.rs:828-859 | one peer's admitted commands join the groups by name and fingerprint, or the peer is reported as refused |
| CommandTable.FromPeers | rust/fhs/src/commands.rs:819-881 | grouping and resolving computes the table of all admitted offers, and the refused peers with their reason |
| CommandTable.OffersExactly | rust/fhs/src/commands.rs:828-859 | an offer counts if and only if some peer in date with a valid announcement makes it and the policy admits it |
| CommandTable.TableMeaning | rust/fhs/src/commands.rs:860-879 | a name is listed if and only if it is offered; it is active if and only if all its offers share a fingerprint, and then lists the offering DIDs in order with the descriptor of the least |
| CommandTable.ListedExactly | rust/fhs/src/commands.rs:819-881 | a name is listed if and only if some node whose announcement has not expired validly offers it and may: open to it by the policy, or trusted when the registry asks for that; an active name lists exactly those nodes |
| CommandTable.TableIgnoresPeerOrder | rust/fhs/src/commands.rs:819-881 | peers with distinct DIDs give the same table in every order |
| CommandTable.ConflictCounts | rust/fhs/src/commands.rs:862-866 | a conflict counts every node offering the name once, and there are at least two |

## Left out

- libp2p, GossipSub, Kademlia, TLS, WebSocket, Kubo and files: foreign code. Messages are atomic values that may be lost, delayed or duplicated.
- SHA-256 and Ed25519 (section 5.1 of RFC 8032): a preimage stands for its hash, and a message carries the DID that signed it.
- Floating-point arithmetic, number parsing and printing: numbers of the engine are abstract, and `cv1` numbers are 64-bit patterns. JavaScript numbers are exact integers, which they are up to 2^53; frame lengths beyond the cap are refused anyway.
- UTF-8: texts are characters, or bytes where bytes are compared; lone surrogates and invalid UTF-8 are not represented.
- ArithmeticCorrect.ParseCorrect: the TypeScript expression parser is the same grammar and has no model of its own.
- ArithmeticLexer.TokenizersAgree: the texts of error messages differ and are not compared.
- Commands.ValidateDescriptor: is the Rust validation, of which the TypeScript one is a transcription without a model of its own; says whether a descriptor is accepted, not which message a refused one gets.
- CommandTable.FromPeers: refusals carry the kind of reason, not its text; reading the registry file and `classify_line` are not part of this model.
- CommandScript.LinesAgree: the regular expressions are written out as predicates. The script may hold a lone surrogate, which it reads as specified, but no Rust text corresponds to such a line.
- BidSelection.BidCollector.Collect: the wait is a list of batches of bids that arrive between checks; the clock is not modelled.
- ProviderCore.AssignmentBook.RecordAssign: the callbacks that wake `waitForAssign` are not modelled; in `MissionProtocol` a tool call may come at any time.
- MissionSafety.ExecutedAtMostOnce: satellites do not restart, which would forget the used ids; a navigator starts each mission id once. The guard is the TypeScript satellite's, because the Rust `provider::serve` does not check assignments (rust/README.md:25-27).
- Wire.FrameReader.Feed: an error of the protobuf decoder whose text happens to contain the word that marks an incomplete frame is not distinguished.
- EnvelopeScan.VerifiesExactly: whether bytes are UTF-8 and whether a payload's bytes decode as its message are parameters; payloads of one tag in a row are merged by joining their bytes, which is how messages merge, and what the merged message would be encoded as again is not modelled. The TypeScript `verifyEnvelope`, which encodes the payload again and checks the clock, is not modelled.
- VerifiedStream.NextVerified: the stream's bytes are given at once, and which requests the budget grants is a parameter; when it grants them is in `DecodeBudget`.
- DecodeBudget.WaiterIsServed: the semaphore may hand out units in any order and portions, which includes the fair order of the real one; fairness between several waiters is not claimed.
- PeerCache.Cache.UpsertAt: fields copied from the announcement are one opaque value; waking the tasks that wait for a change is not modelled. An expiry beyond the end of 64-bit time wraps here, as in an optimised build.
- StreamLimiter.Limiter.DropPermit: requires a live permit, which the type system gives in Rust.
- CURP construction and validation, the conversion between JSON and dynamic values, result codes of the engine, metrics, user interface and generated code: tables and conversions that would add only easy members.
