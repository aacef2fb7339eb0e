/**
 Action receipts and the two byte payloads computed from them: what the chain
 hash of a receipt commits to, and what its signature covers.
 */
module Receipts {
  import opened Bytes
  import opened CanonicalFields

  datatype Receipt = Receipt(
    tenantId: Text, receiptId: Text, actionHash: Text, agentId: Text, ringKeyImageHex: Text, policyVersion: Text,
    ajwtJti: Text, popJkt: Text, timestamp: i64, status: Text, signature: Text, seqNo: i64, prevHash: Text,
    ownerMandateHash: Text)

  /** Field lengths the encoder accepts; longer fields make the original panic. */
  predicate Encodable(r: Receipt)
  {
    && Fits(r.tenantId) && Fits(r.receiptId) && Fits(r.actionHash) && Fits(r.agentId) && Fits(r.ringKeyImageHex)
    && Fits(r.policyVersion) && Fits(r.ajwtJti) && Fits(r.popJkt) && Fits(r.status) && Fits(r.prevHash)
    && Fits(r.ownerMandateHash)
  }

  /** The two receipts differ at most in their signature. */
  predicate SameButSignature(a: Receipt, b: Receipt)
  {
    a.(signature := b.signature) == b
  }

  /** The ten fields every receipt payload commits. */
  function CommonValues(r: Receipt): seq<Text>
  {
    [r.tenantId, r.receiptId, r.actionHash, r.agentId, r.ringKeyImageHex, r.policyVersion, r.ajwtJti, r.popJkt,
     IntText(r.timestamp), r.status]
  }

  const COMMON_NAMES := ["tenant_id", "receipt_id", "action_hash", "agent_id", "ring_key_image_hex", "policy_version",
                         "ajwt_jti", "pop_jkt", "timestamp", "status"]

  function MandateNames(r: Receipt): seq<string>
  {
    if r.ownerMandateHash == [] then [] else ["owner_mandate_hash"]
  }

  function MandateValues(r: Receipt): (v: seq<Text>)
    ensures |v| == |MandateNames(r)|
  {
    if r.ownerMandateHash == [] then [] else [r.ownerMandateHash]
  }

  // ---------- chain payload ----------

  function ChainDomain(r: Receipt): string
  {
    if r.ownerMandateHash == [] then "sauron.agent-action-receipt-chain.v1" else "sauron.agent-action-receipt-chain.v2"
  }

  function ChainValues(r: Receipt): seq<Text>
  {
    [IntText(r.seqNo), r.prevHash] + CommonValues(r) + MandateValues(r)
  }

  function ChainFields(r: Receipt): seq<Field>
  {
    Named(["seq", "prev_hash"] + COMMON_NAMES + MandateNames(r), ChainValues(r))
  }

  lemma ValuesFit(r: Receipt)
    requires Encodable(r)
    ensures forall v :: v in ChainValues(r) ==> Fits(v)
  {
    I64TextLength(r.seqNo);
    I64TextLength(r.timestamp);
  }

  lemma ChainFieldsFit(r: Receipt)
    requires Encodable(r)
    ensures AllFit(Ascii(ChainDomain(r)), ChainFields(r))
  {
    ValuesFit(r);
    NamedFit(ChainDomain(r), ["seq", "prev_hash"] + COMMON_NAMES + MandateNames(r), ChainValues(r));
  }

  function ChainPayload(r: Receipt): Text
    requires Encodable(r)
  {
    ChainFieldsFit(r);
    Encode(Ascii(ChainDomain(r)), ChainFields(r))
  }

  lemma CommonInjective(a: Receipt, b: Receipt)
    requires CommonValues(a) == CommonValues(b)
    ensures && a.tenantId == b.tenantId && a.receiptId == b.receiptId && a.actionHash == b.actionHash
            && a.agentId == b.agentId && a.ringKeyImageHex == b.ringKeyImageHex && a.policyVersion == b.policyVersion
            && a.ajwtJti == b.ajwtJti && a.popJkt == b.popJkt && a.timestamp == b.timestamp && a.status == b.status
  {
    var u, v := CommonValues(a), CommonValues(b);
    assert u[0] == v[0] && u[1] == v[1] && u[2] == v[2] && u[3] == v[3] && u[4] == v[4] && u[5] == v[5];
    assert u[6] == v[6] && u[7] == v[7] && u[8] == v[8] && u[9] == v[9];
    IntTextInjective(a.timestamp, b.timestamp);
  }

  /** Splitting two equal concatenations of equally long parts. */
  lemma SplitEqual<T>(a: seq<T>, b: seq<T>, c: seq<T>, d: seq<T>)
    requires a + b == c + d && |a| == |c|
    ensures a == c && b == d
  {
    assert a == (a + b)[..|a|] && c == (c + d)[..|c|];
    assert b == (a + b)[|a|..] && d == (c + d)[|c|..];
  }

  /** The chain payload commits every field of a receipt except its signature. */
  lemma ChainPayloadInjective(a: Receipt, b: Receipt)
    requires Encodable(a) && Encodable(b)
    ensures ChainPayload(a) == ChainPayload(b) <==> SameButSignature(a, b)
  {
    ChainFieldsFit(a);
    ChainFieldsFit(b);
    EncodeInjective(Ascii(ChainDomain(a)), ChainFields(a), Ascii(ChainDomain(b)), ChainFields(b));
    if ChainPayload(a) == ChainPayload(b) {
      NamedValues(["seq", "prev_hash"] + COMMON_NAMES + MandateNames(a), ChainValues(a),
                  ["seq", "prev_hash"] + COMMON_NAMES + MandateNames(b), ChainValues(b));
      SplitEqual([IntText(a.seqNo), a.prevHash] + CommonValues(a), MandateValues(a),
                 [IntText(b.seqNo), b.prevHash] + CommonValues(b), MandateValues(b));
      SplitEqual([IntText(a.seqNo), a.prevHash], CommonValues(a), [IntText(b.seqNo), b.prevHash], CommonValues(b));
      CommonInjective(a, b);
      LinkInjective(a, b);
    }
  }

  lemma LinkInjective(a: Receipt, b: Receipt)
    requires [IntText(a.seqNo), a.prevHash] == [IntText(b.seqNo), b.prevHash]
    requires MandateValues(a) == MandateValues(b)
    ensures a.seqNo == b.seqNo && a.prevHash == b.prevHash && a.ownerMandateHash == b.ownerMandateHash
  {
    assert [IntText(a.seqNo), a.prevHash][0] == [IntText(b.seqNo), b.prevHash][0];
    assert [IntText(a.seqNo), a.prevHash][1] == [IntText(b.seqNo), b.prevHash][1];
    IntTextInjective(a.seqNo, b.seqNo);
    if a.ownerMandateHash != [] {
      assert MandateValues(a)[0] == MandateValues(b)[0];
    }
  }

  // ---------- signing payload ----------

  /** The payload version a receipt is signed under. */
  function SigningVersion(r: Receipt): int
  {
    if r.seqNo > 0 then (if r.ownerMandateHash != [] then 4 else 3) else 2
  }

  function SigningDomain(version: int): string
    requires 2 <= version <= 4
  {
    if version == 4 then "sauron.agent-action-receipt.v4"
    else if version == 3 then "sauron.agent-action-receipt.v3"
    else "sauron.agent-action-receipt.v2"
  }

  function LinkNames(r: Receipt): seq<string>
  {
    if r.seqNo > 0 then ["seq", "prev_hash"] + MandateNames(r) else []
  }

  function LinkValues(r: Receipt): (v: seq<Text>)
    ensures |v| == |LinkNames(r)|
  {
    if r.seqNo > 0 then [IntText(r.seqNo), r.prevHash] + MandateValues(r) else []
  }

  function SigningFields(r: Receipt): seq<Field>
  {
    Named(COMMON_NAMES + LinkNames(r), CommonValues(r) + LinkValues(r))
  }

  lemma SigningFieldsFit(r: Receipt)
    requires Encodable(r)
    ensures AllFit(Ascii(SigningDomain(SigningVersion(r))), SigningFields(r))
  {
    ValuesFit(r);
    NamedFit(SigningDomain(SigningVersion(r)), COMMON_NAMES + LinkNames(r), CommonValues(r) + LinkValues(r));
  }

  function SigningPayload(r: Receipt): Text
    requires Encodable(r)
  {
    SigningFieldsFit(r);
    Encode(Ascii(SigningDomain(SigningVersion(r))), SigningFields(r))
  }

  lemma DomainsDistinct(v: int, w: int)
    requires 2 <= v <= 4 && 2 <= w <= 4
    ensures Ascii(SigningDomain(v)) == Ascii(SigningDomain(w)) <==> v == w
  {
    assert Ascii(SigningDomain(v))[29] == 48 + v && Ascii(SigningDomain(w))[29] == 48 + w;
  }

  /** What equality of signing payloads means, for every pair of receipts. */
  predicate SameSigned(a: Receipt, b: Receipt)
  {
    && SigningVersion(a) == SigningVersion(b)
    && if a.seqNo > 0 then SameButSignature(a, b)
       else SameButSignature(a, b.(seqNo := a.seqNo, prevHash := a.prevHash, ownerMandateHash := a.ownerMandateHash))
  }

  /**
   Payloads of different versions never coincide; chained receipts with equal
   payloads are equal apart from the signature; unchained ones agree on
   everything but the three chain fields, which their payload leaves out.
   */
  lemma SigningPayloadInjective(a: Receipt, b: Receipt)
    requires Encodable(a) && Encodable(b)
    ensures SigningPayload(a) == SigningPayload(b) <==> SameSigned(a, b)
  {
    SigningFieldsFit(a);
    SigningFieldsFit(b);
    var v, w := SigningVersion(a), SigningVersion(b);
    DomainsDistinct(v, w);
    EncodeInjective(Ascii(SigningDomain(v)), SigningFields(a), Ascii(SigningDomain(w)), SigningFields(b));
    if SigningPayload(a) == SigningPayload(b) {
      NamedValues(COMMON_NAMES + LinkNames(a), CommonValues(a) + LinkValues(a),
                  COMMON_NAMES + LinkNames(b), CommonValues(b) + LinkValues(b));
      SplitEqual(CommonValues(a), LinkValues(a), CommonValues(b), LinkValues(b));
      CommonInjective(a, b);
      if a.seqNo > 0 {
        SplitEqual([IntText(a.seqNo), a.prevHash], MandateValues(a), [IntText(b.seqNo), b.prevHash], MandateValues(b));
        LinkInjective(a, b);
      }
    }
    if SameSigned(a, b) {
      assert CommonValues(a) == CommonValues(b) && LinkValues(a) == LinkValues(b) && LinkNames(a) == LinkNames(b);
    }
  }
}
