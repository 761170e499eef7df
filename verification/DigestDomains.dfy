/**
 The domains of the digests: all different, so that what is hashed for one purpose is never what is hashed for
 another.
 */
module DigestDomains {
  import opened Wrappers
  import opened Bytes
  import opened AuthorizationDigests
  import opened BatchDigest
  import opened Commands
  import CommandTable

  const DOMAINS: seq<string> := [
    "fhs/auth/user_message", "fhs/auth/document", "fhs/auth/derived_text", "fhs/auth/command_args",
    "fhs/auth/query", "fhs/auth/tool_args", "fhs/auth/tool_output", "fhs/auth/ipfs", "fhs/auth/batch",
    "fhs/cmd/contract", "fhs/cmd/registry"]

  /** Any two differ in length or in their tenth character. */
  lemma DomainsDiffer(i: nat, j: nat)
    requires i < |DOMAINS| && j < |DOMAINS| && i != j
    ensures |DOMAINS[i]| != |DOMAINS[j]| || DOMAINS[i][9] != DOMAINS[j][9]
    ensures |DOMAINS[i]| > 9 && |DOMAINS[j]| > 9
  {
  }

  lemma DomainPlain(i: nat)
    requires i < |DOMAINS|
    ensures forall c :: c in DOMAINS[i] ==> 0 < c as int < 128
  {
  }

  lemma AsciiPlain(s: string)
    requires forall c :: c in s ==> 0 < c as int < 128
    ensures 0 !in Ascii(s) && forall k :: 0 <= k < |s| ==> Ascii(s)[k] == s[k] as int
  {
    assert forall k :: 0 <= k < |s| ==> s[k] in s;
  }

  /** Preimages of two purposes coincide exactly for one purpose and one body. */
  lemma PurposesApart(i: nat, j: nat, b: bytes, c: bytes)
    requires i < |DOMAINS| && j < |DOMAINS|
    ensures Framed(Ascii(DOMAINS[i]), b) == Framed(Ascii(DOMAINS[j]), c) <==> i == j && b == c
  {
    DomainPlain(i);
    DomainPlain(j);
    var s, t := DOMAINS[i], DOMAINS[j];
    if i != j {
      DomainsDiffer(i, j);
    }
    AsciiPlain(s);
    AsciiPlain(t);
    FramedIdentifies(Ascii(s), Ascii(t), b, c);
    if i != j && |s| == |t| {
      assert Ascii(s)[9] != Ascii(t)[9];
    }
  }

  /** A batch, an IPFS file, a document and a command's contract are never hashed from the same bytes. */
  lemma PreimagesApart(hash: bytes -> bytes, batch: Batch, cid: bytes, content: bytes, document: bytes,
                       encode: Encoding, d: CommandDescriptor)
    ensures var all := [BatchPreimage(batch), IpfsPreimage(hash, cid, content), Framed(DOMAIN_DOCUMENT, document),
                        CommandTable.Fingerprint(encode, d)];
            forall i, j :: 0 <= i < j < |all| ==> all[i] != all[j]
  {
    hide Body, DocumentDigest, Contract, Framed, Ascii;
    assert DOMAINS[1] == "fhs/auth/document" && DOMAINS[7] == "fhs/auth/ipfs" && DOMAINS[8] == "fhs/auth/batch"
        && DOMAINS[9] == CommandTable.DOMAIN_CONTRACT;
    var file, contract := PushBytes(cid) + PushBytes(DocumentDigest(hash, content)), encode(Contract(d));
    hide DOMAINS;
    PurposesApart(8, 7, Body(batch), file);
    PurposesApart(8, 1, Body(batch), document);
    PurposesApart(8, 9, Body(batch), contract);
    PurposesApart(7, 1, file, document);
    PurposesApart(7, 9, file, contract);
    PurposesApart(1, 9, document, contract);
  }
}
