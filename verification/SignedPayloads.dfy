/**
 The byte strings that are signed or bound outside receipts: per-call signatures,
 owner mandates, partner registrations, login challenges and attestation
 challenges.  Each is a domain name followed by named fields.
 */
module SignedPayloads {

  import opened Bytes
  import opened CanonicalFields
  import Receipts

  datatype Payload =
    | CallSignature(
        agentId: Text, tenantId: Text, audience: Text, httpMethod: Text, targetUri: Text, contentType: Text,
        bodySha256: Text, configDigest: Text, timestampMs: Text, nonce: Text)
    | OwnerMandate(
        tenantId: Text, humanKeyImage: Text, agentPublicKey: Text, popPublicKey: Text, intentJson: Text, ttlSecs: Text)
    | PartnerRegistration(
        tenantId: Text, publicKey: Text, keyImage: Text, firstName: Text, lastName: Text, email: Text,
        dateOfBirth: Text, nationality: Text, commitment: Text, authPublicKey: Text)
    | UserAuthChallenge(challengeId: Text, tenantId: Text, keyImage: Text, nonce: Text, expiresAt: i64)
    | AttestationChallenge(nonce: Text, popPublicKey: Text)

  function Domain(p: Payload): string
  {
    match p
    case CallSignature(_, _, _, _, _, _, _, _, _, _) => "sauron.call.v2"
    case OwnerMandate(_, _, _, _, _, _) => "sauron.owner-mandate.v1"
    case PartnerRegistration(_, _, _, _, _, _, _, _, _, _) => "sauron.partner-registration.v2"
    case UserAuthChallenge(_, _, _, _, _) => "sauron.user-auth-challenge.v1"
    case AttestationChallenge(_, _) => "sauron.attestation-challenge.v1"
  }

  const CALL_NAMES := ["version", "agent_id", "tenant_id", "audience", "method", "target_uri", "content_type",
                       "body_sha256", "config_digest", "timestamp_ms", "nonce"]

  const MANDATE_NAMES := ["tenant_id", "human_key_image", "agent_public_key_hex", "pop_public_key_b64u", "intent_json",
                          "ttl_secs"]

  const PARTNER_NAMES := ["tenant_id", "public_key_hex", "key_image_hex", "first_name", "last_name", "email",
                          "date_of_birth", "nationality", "commitment", "auth_public_key_b64u"]

  const USER_AUTH_NAMES := ["challenge_id", "tenant_id", "key_image_hex", "nonce", "expires_at"]

  const ATTESTATION_NAMES := ["nonce", "pop_public_key_b64u"]

  function Names(p: Payload): seq<string>
  {
    match p
    case CallSignature(_, _, _, _, _, _, _, _, _, _) => CALL_NAMES
    case OwnerMandate(_, _, _, _, _, _) => MANDATE_NAMES
    case PartnerRegistration(_, _, _, _, _, _, _, _, _, _) => PARTNER_NAMES
    case UserAuthChallenge(_, _, _, _, _) => USER_AUTH_NAMES
    case AttestationChallenge(_, _) => ATTESTATION_NAMES
  }

  function Values(p: Payload): (v: seq<Text>)
    ensures |v| == |Names(p)|
  {
    match p
    case CallSignature(agent, tenant, audience, httpMethod, uri, contentType, body, config, ts, nonce) =>
      [Ascii("2"), agent, tenant, audience, httpMethod, uri, contentType, body, config, ts, nonce]
    case OwnerMandate(tenant, human, agentKey, popKey, intent, ttl) => [tenant, human, agentKey, popKey, intent, ttl]
    case PartnerRegistration(tenant, key, image, first, last, email, birth, nationality, commitment, authKey) =>
      [tenant, key, image, first, last, email, birth, nationality, commitment, authKey]
    case UserAuthChallenge(challenge, tenant, image, nonce, expiresAt) =>
      [challenge, tenant, image, nonce, IntText(expiresAt)]
    case AttestationChallenge(nonce, popKey) => [nonce, popKey]
  }

  predicate Encodable(p: Payload)
  {
    forall v :: v in Values(p) ==> Fits(v)
  }

  predicate Short(names: seq<string>)
  {
    forall i :: 0 <= i < |names| ==> |names[i]| < 100
  }

  lemma CallNamesShort()
    ensures Short(CALL_NAMES)
  {
  }

  lemma PartnerNamesShort()
    ensures Short(PARTNER_NAMES)
  {
  }

  lemma OtherNamesShort()
    ensures Short(MANDATE_NAMES) && Short(USER_AUTH_NAMES) && Short(ATTESTATION_NAMES)
  {
  }

  lemma NamesShort(p: Payload)
    ensures |Domain(p)| < 100 && Short(Names(p))
  {
    CallNamesShort();
    PartnerNamesShort();
    OtherNamesShort();
  }

  lemma FieldsFit(p: Payload)
    requires Encodable(p)
    ensures AllFit(Ascii(Domain(p)), Named(Names(p), Values(p)))
  {
    NamesShort(p);
    NamedFit(Domain(p), Names(p), Values(p));
  }

  /** What is signed. */
  function PayloadBytes(p: Payload): Text
    requires Encodable(p)
  {
    FieldsFit(p);
    Encode(Ascii(Domain(p)), Named(Names(p), Values(p)))
  }

  lemma ValuesInjective(p: Payload, q: Payload)
    requires |Domain(p)| == |Domain(q)| && Values(p) == Values(q)
    ensures p == q
  {
    var u, v := Values(p), Values(q);
    assert forall i :: 0 <= i < |u| ==> u[i] == v[i];
    if p.UserAuthChallenge? {
      assert u[4] == v[4];
      IntTextInjective(p.expiresAt, q.expiresAt);
    }
  }

  /** Equal bytes mean the same kind of payload with the same value in every field. */
  lemma PayloadInjective(p: Payload, q: Payload)
    requires Encodable(p) && Encodable(q)
    ensures PayloadBytes(p) == PayloadBytes(q) <==> p == q
  {
    if PayloadBytes(p) == PayloadBytes(q) {
      SameParts(p, q);
      ValuesInjective(p, q);
    }
  }

  lemma SameParts(p: Payload, q: Payload)
    requires Encodable(p) && Encodable(q) && PayloadBytes(p) == PayloadBytes(q)
    ensures |Domain(p)| == |Domain(q)| && Values(p) == Values(q)
  {
    FieldsFit(p);
    FieldsFit(q);
    EncodeInjective(Ascii(Domain(p)), Named(Names(p), Values(p)), Ascii(Domain(q)), Named(Names(q), Values(q)));
    NamedValues(Names(p), Values(p), Names(q), Values(q));
    assert |Ascii(Domain(p))| == |Ascii(Domain(q))|;
  }

  /** The beginning of a domain name tells these payloads from receipts. */
  lemma DomainApart(p: Payload, d: string)
    requires |d| >= 12 && d[..12] == "sauron.agent"
    ensures Ascii(Domain(p)) != Ascii(d)
  {
    var c := Domain(p);
    assert d[8] == "sauron.agent"[8] == 'g' && d[7] == "sauron.agent"[7] == 'a';
    assert Ascii(d)[7] == 97 && Ascii(d)[8] == 103;
    assert p.AttestationChallenge? ==> c[8] == 't' && Ascii(c)[8] == 116;
    assert !p.AttestationChallenge? ==> c[7] != 'a' && Ascii(c)[7] != 97;
  }

  /** So none of them is an encoding under a receipt's domain. */
  lemma OtherDomain(p: Payload, d: string, fields: seq<Field>)
    requires Encodable(p) && |d| >= 12 && d[..12] == "sauron.agent" && AllFit(Ascii(d), fields)
    ensures PayloadBytes(p) != Encode(Ascii(d), fields)
  {
    FieldsFit(p);
    DomainApart(p, d);
    EncodeInjective(Ascii(Domain(p)), Named(Names(p), Values(p)), Ascii(d), fields);
  }

  lemma ReceiptDomains(r: Receipts.Receipt)
    ensures var signing, chain := Receipts.SigningDomain(Receipts.SigningVersion(r)), Receipts.ChainDomain(r);
            |signing| >= 12 && |chain| >= 12 && signing[..12] == chain[..12] == "sauron.agent"
  {
  }

  /** None of them is ever the signing or the chain payload of a receipt. */
  lemma NeverAReceipt(p: Payload, r: Receipts.Receipt)
    requires Encodable(p) && Receipts.Encodable(r)
    ensures PayloadBytes(p) != Receipts.SigningPayload(r) && PayloadBytes(p) != Receipts.ChainPayload(r)
  {
    ReceiptDomains(r);
    Receipts.SigningFieldsFit(r);
    Receipts.ChainFieldsFit(r);
    OtherDomain(p, Receipts.SigningDomain(Receipts.SigningVersion(r)), Receipts.SigningFields(r));
    OtherDomain(p, Receipts.ChainDomain(r), Receipts.ChainFields(r));
  }
}
