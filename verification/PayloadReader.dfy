/**
 What a decoder that knows no field names reads from each signed, hashed or anchored
 payload: its domain, and every name with the value that stands under it.
 */
module PayloadReader {

  import opened Bytes
  import opened CanonicalFields
  import R = Receipts
  import P = SignedPayloads
  import A = AnchorBatches

  type Pair = (string, Text)

  function Pairs(ps: seq<Pair>): (fs: seq<Field>)
    ensures |fs| == |ps| && forall i :: 0 <= i < |ps| ==> fs[i] == (Ascii(ps[i].0), ps[i].1)
  {
    seq(|ps|, i requires 0 <= i < |ps| => (Ascii(ps[i].0), ps[i].1))
  }

  lemma NamedIsPairs(names: seq<string>, values: seq<Text>, ps: seq<Pair>)
    requires |names| == |values| == |ps| && forall i :: 0 <= i < |ps| ==> ps[i] == (names[i], values[i])
    ensures Named(names, values) == Pairs(ps)
  {
  }

  lemma NamedJoins(a: seq<string>, x: seq<Text>, b: seq<string>, y: seq<Text>, ps: seq<Pair>, qs: seq<Pair>)
    requires |a| == |x| && |b| == |y| && Named(a, x) == Pairs(ps) && Named(b, y) == Pairs(qs)
    ensures Named(a + b, x + y) == Pairs(ps + qs)
  {
    assert |ps| == |a| && |qs| == |b|;
    forall i | 0 <= i < |a| + |b|
      ensures Named(a + b, x + y)[i] == Pairs(ps + qs)[i]
    {
      if i < |a| {
        assert Named(a, x)[i] == Pairs(ps)[i];
      } else {
        assert Named(b, y)[i - |a|] == Pairs(qs)[i - |a|];
      }
    }
  }

  // ---------- receipts ----------

  /** The ten fields of every receipt under their names. */
  function ReceiptPairs(r: R.Receipt): (ps: seq<Pair>)
    ensures |ps| == 10
  {
    [("tenant_id", r.tenantId), ("receipt_id", r.receiptId), ("action_hash", r.actionHash), ("agent_id", r.agentId),
     ("ring_key_image_hex", r.ringKeyImageHex), ("policy_version", r.policyVersion), ("ajwt_jti", r.ajwtJti),
     ("pop_jkt", r.popJkt), ("timestamp", IntText(r.timestamp)), ("status", r.status)]
  }

  function LinkPairs(r: R.Receipt): seq<Pair>
  {
    [("seq", IntText(r.seqNo)), ("prev_hash", r.prevHash)]
  }

  function MandatePairs(r: R.Receipt): seq<Pair>
  {
    if r.ownerMandateHash == [] then [] else [("owner_mandate_hash", r.ownerMandateHash)]
  }

  lemma CommonRead(r: R.Receipt)
    ensures Named(R.COMMON_NAMES, R.CommonValues(r)) == Pairs(ReceiptPairs(r))
  {
    NamedIsPairs(R.COMMON_NAMES, R.CommonValues(r), ReceiptPairs(r));
  }

  lemma LinkRead(r: R.Receipt)
    ensures Named(["seq", "prev_hash"], [IntText(r.seqNo), r.prevHash]) == Pairs(LinkPairs(r))
    ensures Named(R.MandateNames(r), R.MandateValues(r)) == Pairs(MandatePairs(r))
  {
  }

  /** The chain payload: place in the chain, the ten fields, and a mandate if there is one, under another domain. */
  lemma ChainPayloadRead(r: R.Receipt)
    requires R.Encodable(r)
    ensures Decode(R.ChainPayload(r)) == Some((
              Ascii(if r.ownerMandateHash == [] then "sauron.agent-action-receipt-chain.v1"
                    else "sauron.agent-action-receipt-chain.v2"),
              Pairs(LinkPairs(r) + ReceiptPairs(r) + MandatePairs(r))))
  {
    CommonRead(r);
    LinkRead(r);
    var link := [IntText(r.seqNo), r.prevHash];
    NamedJoins(["seq", "prev_hash"], link, R.COMMON_NAMES, R.CommonValues(r), LinkPairs(r), ReceiptPairs(r));
    NamedJoins(["seq", "prev_hash"] + R.COMMON_NAMES, link + R.CommonValues(r), R.MandateNames(r), R.MandateValues(r),
               LinkPairs(r) + ReceiptPairs(r), MandatePairs(r));
    R.ChainFieldsFit(r);
    RoundTrip(Ascii(R.ChainDomain(r)), R.ChainFields(r));
  }

  /** The signing payload: the ten fields and, if chained, its place and mandate, under a versioned domain. */
  lemma SigningPayloadRead(r: R.Receipt)
    requires R.Encodable(r)
    ensures Decode(R.SigningPayload(r)) == Some((
              Ascii(if r.seqNo <= 0 then "sauron.agent-action-receipt.v2"
                    else if r.ownerMandateHash == [] then "sauron.agent-action-receipt.v3"
                    else "sauron.agent-action-receipt.v4"),
              Pairs(ReceiptPairs(r) + if r.seqNo <= 0 then [] else LinkPairs(r) + MandatePairs(r))))
  {
    CommonRead(r);
    LinkRead(r);
    NamedJoins(["seq", "prev_hash"], [IntText(r.seqNo), r.prevHash], R.MandateNames(r), R.MandateValues(r),
               LinkPairs(r), MandatePairs(r));
    var link := if r.seqNo <= 0 then [] else LinkPairs(r) + MandatePairs(r);
    assert Named(R.LinkNames(r), R.LinkValues(r)) == Pairs(link);
    NamedJoins(R.COMMON_NAMES, R.CommonValues(r), R.LinkNames(r), R.LinkValues(r), ReceiptPairs(r), link);
    R.SigningFieldsFit(r);
    RoundTrip(Ascii(R.SigningDomain(R.SigningVersion(r))), R.SigningFields(r));
  }

  // ---------- the other signed payloads ----------

  function PayloadPairs(p: P.Payload): (ps: seq<Pair>)
    ensures |ps| == |P.Names(p)|
  {
    match p
    case CallSignature(agentId, tenantId, audience, httpMethod, targetUri, contentType, body, digest, ts, nonce) =>
      [("version", Ascii("2")), ("agent_id", agentId), ("tenant_id", tenantId), ("audience", audience),
       ("method", httpMethod), ("target_uri", targetUri), ("content_type", contentType), ("body_sha256", body),
       ("config_digest", digest), ("timestamp_ms", ts), ("nonce", nonce)]
    case OwnerMandate(tenantId, human, agentKey, popKey, intent, ttl) =>
      [("tenant_id", tenantId), ("human_key_image", human), ("agent_public_key_hex", agentKey),
       ("pop_public_key_b64u", popKey), ("intent_json", intent), ("ttl_secs", ttl)]
    case PartnerRegistration(tenantId, key, image, first, last, email, birth, nationality, commitment, authKey) =>
      [("tenant_id", tenantId), ("public_key_hex", key), ("key_image_hex", image), ("first_name", first),
       ("last_name", last), ("email", email), ("date_of_birth", birth), ("nationality", nationality),
       ("commitment", commitment), ("auth_public_key_b64u", authKey)]
    case UserAuthChallenge(challengeId, tenantId, image, nonce, expiresAt) =>
      [("challenge_id", challengeId), ("tenant_id", tenantId), ("key_image_hex", image), ("nonce", nonce),
       ("expires_at", IntText(expiresAt))]
    case AttestationChallenge(nonce, popKey) => [("nonce", nonce), ("pop_public_key_b64u", popKey)]
  }

  lemma PayloadPairAt(p: P.Payload, i: nat)
    requires i < |P.Names(p)|
    ensures PayloadPairs(p)[i] == (P.Names(p)[i], P.Values(p)[i])
  {
  }

  /** Every field of a signed payload stands under its own name. */
  lemma PayloadRead(p: P.Payload)
    requires P.Encodable(p)
    ensures Decode(P.PayloadBytes(p)) == Some((Ascii(P.Domain(p)), Pairs(PayloadPairs(p))))
    ensures p.CallSignature? ==> P.Domain(p) == "sauron.call.v2"
    ensures p.OwnerMandate? ==> P.Domain(p) == "sauron.owner-mandate.v1"
    ensures p.PartnerRegistration? ==> P.Domain(p) == "sauron.partner-registration.v2"
    ensures p.UserAuthChallenge? ==> P.Domain(p) == "sauron.user-auth-challenge.v1"
    ensures p.AttestationChallenge? ==> P.Domain(p) == "sauron.attestation-challenge.v1"
  {
    forall i | 0 <= i < |P.Names(p)|
      ensures PayloadPairs(p)[i] == (P.Names(p)[i], P.Values(p)[i])
    {
      PayloadPairAt(p, i);
    }
    NamedIsPairs(P.Names(p), P.Values(p), PayloadPairs(p));
    P.FieldsFit(p);
    RoundTrip(Ascii(P.Domain(p)), Named(P.Names(p), P.Values(p)));
  }

  // ---------- leaves ----------

  function LeafPairs(r: A.Row): (ps: seq<Pair>)
    ensures |ps| == 13
  {
    [("tenant_id", r.tenantId), ("receipt_id", r.receiptId), ("action_hash", r.actionHash), ("agent_id", r.agentId),
     ("ring_key_image_hex", r.ringKeyImageHex), ("policy_version", r.policyVersion), ("ajwt_jti", r.ajwtJti),
     ("pop_jkt", r.popJkt), ("status", r.status), ("signature", r.signature), ("created_at", IntText(r.createdAt)),
     ("ring_id", r.ringId), ("config_digest", r.configDigest)]
  }

  /** The leaf of a receipt commits every column under its name. */
  lemma LeafRead(r: A.Row)
    requires A.LeafEncodable(r)
    ensures Decode(A.LeafPayload(r)) == Some((Ascii("sauron.action-anchor-leaf.v2"), Pairs(LeafPairs(r))))
  {
    NamedIsPairs(A.LEAF_NAMES, A.LeafValues(r), LeafPairs(r));
    NamedFit("sauron.action-anchor-leaf.v2", A.LEAF_NAMES, A.LeafValues(r));
    RoundTrip(Ascii("sauron.action-anchor-leaf.v2"), Named(A.LEAF_NAMES, A.LeafValues(r)));
  }

  /** The audit-head leaf commits the tenant, the position and the hash of the entry. */
  lemma HeadRead(tenant: Text, head: A.AuditHead)
    requires Fits(tenant) && Fits(head.entryHash)
    ensures Decode(A.HeadPayload(tenant, head)) == Some((
              Ascii("sauron.audit-head-leaf.v1"),
              Pairs([("tenant_id", tenant), ("audit_seq", IntText(head.seqNo)), ("audit_entry_hash", head.entryHash)])))
  {
    var values := A.HeadValues(tenant, head);
    NamedIsPairs(A.HEAD_NAMES, values,
                 [("tenant_id", tenant), ("audit_seq", IntText(head.seqNo)), ("audit_entry_hash", head.entryHash)]);
    I64TextLength(head.seqNo);
    NamedFit("sauron.audit-head-leaf.v1", A.HEAD_NAMES, values);
    RoundTrip(Ascii("sauron.audit-head-leaf.v1"), Named(A.HEAD_NAMES, values));
  }
}
