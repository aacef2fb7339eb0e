/**
 The action protocol over the nonce and receipt tables: the anonymous ring path in
 full, and the table effects of the identified path.  Ring rules, budgets, hashes
 and the receipt signature are parameters; the clock is an argument of each call.
 */
module ActionStore {
  import opened Bytes
  import opened CanonicalJson
  import opened Receipts
  import opened ReceiptChain
  import RS = RingSignature

  /** A ring is a rule over (action, config digest), a version and its members' points. */
  datatype Ring<!P(==)> = Ring(rule: (Text, Text) -> bool, version: i64, members: seq<P>)

  datatype World<!P(==)> = World(
    suite: RS.Suite<P, Text>,
    rings: map<(Text, Text), Ring<P>>,
    overBudget: (Text, Text, Text) -> bool,
    pointHex: P -> Text,
    actionHash: Text -> Text,
    trim: Text -> Text,
    digest: Digest,
    sign: Receipt -> Text)

  datatype AnonProof<P> = AnonProof(envelope: AnonEnvelope, signature: RS.Signature<P>, also: seq<RS.Signature<P>>)

  datatype Denial =
    | RingIdMissing | BadNonceLength | EnvelopeExpired | SignatureCountMismatch | EmptyAlsoRing | DuplicateRing
    | RingNotFound | RuleDenied | EmptyRing | SignatureInvalid | BudgetExceeded | NonceReplay

  datatype Outcome = Accepted(receipt: Receipt) | Denied(why: Denial)

  // ---------- the checks before any table is touched ----------

  /** The checks on the envelope alone. */
  ghost predicate WellFormed<P>(w: World<P>, proof: AnonProof<P>, now: i64)
  {
    var e := proof.envelope;
    && w.trim(e.ringId) != []
    && 16 <= |w.trim(e.nonce)| && |e.nonce| <= 128
    && e.expiresAt >= now
    && |proof.also| == |e.alsoRingIds|
    && forall i :: 0 <= i < |e.alsoRingIds| ==> AlsoRingFine(w, e, i)
  }

  predicate AlsoRingFine<P(==)>(w: World<P>, e: AnonEnvelope, i: nat)
    requires i < |e.alsoRingIds|
  {
    var id := e.alsoRingIds[i];
    w.trim(id) != [] && id != e.ringId && id !in e.alsoRingIds[..i]
  }

  /** The ring exists, allows the action, has members, and one of them signed the message. */
  predicate RingAdmits<P(==)>(w: World<P>, e: AnonEnvelope, msg: Text, ringId: Text, sig: RS.Signature<P>)
  {
    && (e.tenantId, ringId) in w.rings
    && var ring := w.rings[(e.tenantId, ringId)];
    && ring.rule(e.action, e.configDigest)
    && ring.members != []
    && RS.Accepts(w.suite, msg, ring.members, sig)
  }

  /** Every ring named in the envelope admits it, and the primary ring's budget is not exhausted. */
  ghost predicate Authorised<P>(w: World<P>, proof: AnonProof<P>, msg: Text)
  {
    var e := proof.envelope;
    && |proof.also| == |e.alsoRingIds|
    && RingAdmits(w, e, msg, e.ringId, proof.signature)
    && (forall i :: 0 <= i < |e.alsoRingIds| ==> RingAdmits(w, e, msg, e.alsoRingIds[i], proof.also[i]))
    && !w.overBudget(e.tenantId, e.ringId, w.pointHex(proof.signature.keyImage))
  }

  /** The source's checks on one ring, in order. */
  function AdmitRing<P(==)>(w: World<P>, e: AnonEnvelope, msg: Text, ringId: Text, sig: RS.Signature<P>)
    : (why: Option<Denial>)
    ensures why.None? <==> RingAdmits(w, e, msg, ringId, sig)
    ensures why == Some(RingNotFound) <==> (e.tenantId, ringId) !in w.rings
    ensures why == Some(RuleDenied) <==>
              (e.tenantId, ringId) in w.rings && !w.rings[(e.tenantId, ringId)].rule(e.action, e.configDigest)
    ensures why == Some(EmptyRing) ==> w.rings[(e.tenantId, ringId)].members == []
    ensures why.Some? ==> why.value in {RingNotFound, RuleDenied, EmptyRing, SignatureInvalid}
  {
    if (e.tenantId, ringId) !in w.rings then Some(RingNotFound)
    else
      var ring := w.rings[(e.tenantId, ringId)];
      if !ring.rule(e.action, e.configDigest) then Some(RuleDenied)
      else if ring.members == [] then Some(EmptyRing)
      else if !RS.Accepts(w.suite, msg, ring.members, sig) then Some(SignatureInvalid)
      else None
  }

  /** `ring:<id>:v<version>`, as the receipt's policy version lists the rings. */
  function RingTag<P(==)>(w: World<P>, tenantId: Text, ringId: Text): Text
    requires (tenantId, ringId) in w.rings
  {
    Ascii("ring:") + ringId + Ascii(":v") + IntText(w.rings[(tenantId, ringId)].version)
  }

  /** The tags of the primary ring and the first k additional rings, joined by plus signs. */
  function PolicyVersion<P(==)>(w: World<P>, e: AnonEnvelope, k: nat): Text
    requires k <= |e.alsoRingIds| && (e.tenantId, e.ringId) in w.rings
    requires forall i :: 0 <= i < k ==> (e.tenantId, e.alsoRingIds[i]) in w.rings
  {
    if k == 0 then RingTag(w, e.tenantId, e.ringId)
    else PolicyVersion(w, e, k - 1) + Ascii("+") + RingTag(w, e.tenantId, e.alsoRingIds[k - 1])
  }

  ghost predicate RingRepeats(e: AnonEnvelope)
  {
    var ids := [e.ringId] + e.alsoRingIds;
    exists i, j :: 0 <= i < j < |ids| && ids[i] == ids[j]
  }

  lemma RepeatedRing(e: AnonEnvelope, i: nat)
    requires i < |e.alsoRingIds| && (e.alsoRingIds[i] == e.ringId || e.alsoRingIds[i] in e.alsoRingIds[..i])
    ensures RingRepeats(e)
  {
    var ids := [e.ringId] + e.alsoRingIds;
    if e.alsoRingIds[i] == e.ringId {
      assert ids[0] == ids[i + 1];
    } else {
      var j :| 0 <= j < i && e.alsoRingIds[j] == e.alsoRingIds[i];
      assert ids[j + 1] == ids[i + 1];
    }
  }

  /** The envelope checks in source order; an expired envelope is refused as such. */
  method CheckEnvelope<P(==)>(w: World<P>, proof: AnonProof<P>, now: i64) returns (why: Option<Denial>)
    ensures why.None? <==> WellFormed(w, proof, now)
    ensures var e := proof.envelope;
            var named, fits := w.trim(e.ringId) != [], 16 <= |w.trim(e.nonce)| && |e.nonce| <= 128;
            && (why == Some(RingIdMissing) <==> !named)
            && (why == Some(BadNonceLength) <==> named && !fits)
            && (why == Some(EnvelopeExpired) <==> named && fits && e.expiresAt < now)
            && (why == Some(SignatureCountMismatch) <==>
                  named && fits && e.expiresAt >= now && |proof.also| != |e.alsoRingIds|)
    ensures why == Some(EmptyAlsoRing) ==> exists id :: id in proof.envelope.alsoRingIds && w.trim(id) == []
    ensures why == Some(DuplicateRing) ==> RingRepeats(proof.envelope)
  {
    var e := proof.envelope;
    if w.trim(e.ringId) == [] {
      return Some(RingIdMissing);
    }
    if |w.trim(e.nonce)| < 16 || |e.nonce| > 128 {
      return Some(BadNonceLength);
    }
    if e.expiresAt < now {
      return Some(EnvelopeExpired);
    }
    if |proof.also| != |e.alsoRingIds| {
      return Some(SignatureCountMismatch);
    }
    for i := 0 to |e.alsoRingIds|
      invariant forall j :: 0 <= j < i ==> AlsoRingFine(w, e, j)
    {
      if w.trim(e.alsoRingIds[i]) == [] {
        assert !AlsoRingFine(w, e, i);
        return Some(EmptyAlsoRing);
      }
      if e.alsoRingIds[i] == e.ringId || e.alsoRingIds[i] in e.alsoRingIds[..i] {
        assert !AlsoRingFine(w, e, i);
        RepeatedRing(e, i);
        return Some(DuplicateRing);
      }
    }
    return None;
  }

  /** The ring checks in source order. */
  method CheckRings<P(==)>(w: World<P>, proof: AnonProof<P>, msg: Text) returns (why: Option<Denial>)
    requires |proof.also| == |proof.envelope.alsoRingIds|
    ensures why.None? <==> Authorised(w, proof, msg)
    ensures why == Some(BudgetExceeded) <==>
              var e := proof.envelope;
              && RingAdmits(w, e, msg, e.ringId, proof.signature)
              && (forall i :: 0 <= i < |e.alsoRingIds| ==> RingAdmits(w, e, msg, e.alsoRingIds[i], proof.also[i]))
              && w.overBudget(e.tenantId, e.ringId, w.pointHex(proof.signature.keyImage))
  {
    var e := proof.envelope;
    why := AdmitRing(w, e, msg, e.ringId, proof.signature);
    if why.Some? {
      return;
    }
    for i := 0 to |e.alsoRingIds|
      invariant forall j :: 0 <= j < i ==> RingAdmits(w, e, msg, e.alsoRingIds[j], proof.also[j])
    {
      why := AdmitRing(w, e, msg, e.alsoRingIds[i], proof.also[i]);
      if why.Some? {
        return;
      }
    }
    if w.overBudget(e.tenantId, e.ringId, w.pointHex(proof.signature.keyImage)) {
      return Some(BudgetExceeded);
    }
    return None;
  }

  // ---------- the tables ----------

  datatype Tables = Tables(receipts: Table, nonces: map<Text, int>)

  /** `DELETE ... WHERE expires_at < now`. */
  function Purged(nonces: map<Text, int>, now: int): map<Text, int>
  {
    map k | k in nonces && nonces[k] >= now :: nonces[k]
  }

  const BAR: byte := 124

  /** The single-use key of an anonymous call: key image, bar, nonce. */
  function AnonNonceKey<P(==)>(w: World<P>, proof: AnonProof<P>): Text
  {
    w.pointHex(proof.signature.keyImage) + [BAR] + proof.envelope.nonce
  }

  /** Room for one more receipt of the tenant below the 64-bit limit, in a table without negative numbers. */
  ghost predicate HasRoom<P>(w: World<P>, t: Table, tenant: Text)
  {
    (forall i :: 0 <= i < |t| ==> t[i].seqNo >= 0) && NextChainPosition(w.digest, t, tenant).0 < I64_LIMIT
  }

  /** The anonymous receipt before it is placed in the chain: no agent identity and no mandate. */
  function AnonDraft<P(==)>(w: World<P>, proof: AnonProof<P>, now: i64, receiptId: Text): Receipt
    requires Authorised(w, proof, CanonicalAnonEnvelopeJson(proof.envelope))
  {
    var e := proof.envelope;
    Receipt(e.tenantId, receiptId, w.actionHash(CanonicalAnonEnvelopeJson(e)), [],
            w.pointHex(proof.signature.keyImage), PolicyVersion(w, e, |e.alsoRingIds|), [], [], now,
            Ascii("verified"), [], 0, [], [])
  }

  /** Purging, then inserting the nonce and the receipt unless the nonce is still there. */
  function Consume(s: Tables, key: Text, expires: int, now: int, row: Receipt): Tables
  {
    var live := Purged(s.nonces, now);
    if key in live then s.(nonces := live) else Tables(s.receipts + [row], live[key := expires])
  }

  class Database {
    var receipts: Table
    var nonces: map<Text, int>

    ghost function State(): Tables
      reads this
    {
      Tables(receipts, nonces)
    }

    /**
     A refused call leaves both tables alone.  A call that passes every check is
     accepted exactly when its nonce is not in the table after purging, and then
     adds one nonce and one receipt.
     */
    method ValidateAnonAction<P(==)>(w: World<P>, proof: AnonProof<P>, now: i64, receiptId: Text)
      returns (out: Outcome)
      requires HasRoom(w, receipts, proof.envelope.tenantId)
      modifies this
      ensures var msg := CanonicalAnonEnvelopeJson(proof.envelope);
              if !WellFormed(w, proof, now) || !Authorised(w, proof, msg) then
                out.Denied? && State() == old(State())
              else
                var row := Placed(w.digest, old(receipts), AnonDraft(w, proof, now, receiptId), w.sign);
                && State() == Consume(old(State()), AnonNonceKey(w, proof), proof.envelope.expiresAt, now, row)
                && out == if AnonNonceKey(w, proof) in Purged(old(nonces), now) then Denied(NonceReplay)
                          else Accepted(row)
      ensures CallStep(w, old(State()), AnonCall(w, proof, now, receiptId), State())
      ensures out.Accepted? <==> AcceptedIn(old(State()), AnonCall(w, proof, now, receiptId))
    {
      var msg := CanonicalAnonEnvelopeJson(proof.envelope);
      var why := CheckEnvelope(w, proof, now);
      if why.Some? {
        return Denied(why.value);
      }
      why := CheckRings(w, proof, msg);
      if why.Some? {
        return Denied(why.value);
      }
      nonces := Purged(nonces, now);
      var key := AnonNonceKey(w, proof);
      if key in nonces {
        return Denied(NonceReplay);
      }
      nonces := nonces[key := proof.envelope.expiresAt];
      var row := Placed(w.digest, receipts, AnonDraft(w, proof, now, receiptId), w.sign);
      receipts := receipts + [row];
      return Accepted(row);
    }

    /**
     The identified path after its request checks.  The envelope's expiry is
     compared with one reading of the clock, the purge uses a later one.
     */
    method ValidateAgentAction<P(==)>(w: World<P>, nonce: Text, expiresAt: int, checkedAt: int, now: i64,
                                      otherChecks: bool, ringOk: bool, draft: Receipt)
      returns (out: Outcome)
      requires HasRoom(w, receipts, draft.tenantId)
      modifies this
      ensures if expiresAt < checkedAt || !otherChecks || !ringOk then
                out.Denied? && State() == old(State())
              else
                var row := Placed(w.digest, old(receipts), draft, w.sign);
                && State() == Consume(old(State()), nonce, expiresAt, now, row)
                && out == if nonce in Purged(old(nonces), now) then Denied(NonceReplay) else Accepted(row)
      ensures var call := Call(nonce, expiresAt, checkedAt, now, otherChecks && ringOk, draft);
              CallStep(w, old(State()), call, State()) && (out.Accepted? <==> AcceptedIn(old(State()), call))
    {
      if expiresAt < checkedAt {
        return Denied(EnvelopeExpired);
      }
      if !otherChecks {
        return Denied(RuleDenied);
      }
      if ringOk {
        nonces := Purged(nonces, now);
        if nonce in nonces {
          return Denied(NonceReplay);
        }
        nonces := nonces[nonce := expiresAt];
      }
      var row := Placed(w.digest, receipts, draft, w.sign);
      if ringOk {
        receipts := receipts + [row];
      }
      out := if ringOk then Accepted(row) else Denied(SignatureInvalid);
    }
  }

  // ---------- runs of both paths ----------

  /** One call: its nonce key, its expiry, the two clock readings, whether the other checks pass, and its receipt. */
  datatype Call = Call(key: Text, expires: int, checkedAt: int, now: int, passes: bool, draft: Receipt)

  predicate Reaches(c: Call)
  {
    c.passes && c.expires >= c.checkedAt
  }

  predicate AcceptedIn(s: Tables, c: Call)
  {
    Reaches(c) && c.key !in Purged(s.nonces, c.now)
  }

  ghost predicate CallStep<P>(w: World<P>, s: Tables, c: Call, s': Tables)
  {
    && HasRoom(w, s.receipts, c.draft.tenantId)
    && s' == if !Reaches(c) then s
             else Consume(s, c.key, c.expires, c.now, Placed(w.digest, s.receipts, c.draft, w.sign))
  }

  /** The states of a run: `states[k]` is the database before call k. */
  ghost predicate CallRun<P>(w: World<P>, states: seq<Tables>, calls: seq<Call>)
  {
    |states| == |calls| + 1 && forall k :: 0 <= k < |calls| ==> CallStep(w, states[k], calls[k], states[k + 1])
  }

  ghost predicate AcceptedAt(states: seq<Tables>, calls: seq<Call>, k: nat)
    requires |states| == |calls| + 1
  {
    k < |calls| && AcceptedIn(states[k], calls[k])
  }

  /** Between calls i and k a call reached the tables whose reading was past this expiry, and purged. */
  ghost predicate PurgedBetween(calls: seq<Call>, i: nat, k: nat, expires: int)
    requires k <= |calls|
  {
    exists m :: i < m < k && Reaches(calls[m]) && calls[m].now > expires
  }

  /** Until the next acceptance of the key its nonce row is there exactly as long as no call past its expiry purged. */
  lemma {:induction false} NonceKept<P>(w: World<P>, states: seq<Tables>, calls: seq<Call>, i: nat, k: nat)
    requires CallRun(w, states, calls) && i < k <= |calls| && AcceptedAt(states, calls, i)
    requires forall j :: i < j < k && calls[j].key == calls[i].key ==> !AcceptedAt(states, calls, j)
    ensures calls[i].key !in states[k].nonces <==> PurgedBetween(calls, i, k, calls[i].expires)
    ensures calls[i].key in states[k].nonces ==> states[k].nonces[calls[i].key] == calls[i].expires
  {
    assert CallStep(w, states[k - 1], calls[k - 1], states[k]);
    if k > i + 1 {
      NonceKept(w, states, calls, i, k - 1);
      PurgedStep(calls, i, k, calls[i].expires);
    }
  }

  lemma PurgedStep(calls: seq<Call>, i: nat, k: nat, expires: int)
    requires i + 1 < k <= |calls|
    ensures PurgedBetween(calls, i, k, expires)
            <==> PurgedBetween(calls, i, k - 1, expires) || (Reaches(calls[k - 1]) && calls[k - 1].now > expires)
  {
  }

  /**
   Reuse, exactly, whatever the order of the clock readings: the next call with the
   key of an accepted one is accepted exactly when it passes its checks and some call
   since, or this one, reached the tables with a reading past the first expiry.
   */
  lemma ReuseExactly<P>(w: World<P>, states: seq<Tables>, calls: seq<Call>, i: nat, j: nat)
    requires CallRun(w, states, calls) && i < j < |calls| && AcceptedAt(states, calls, i)
    requires calls[j].key == calls[i].key
    requires forall k :: i < k < j && calls[k].key == calls[i].key ==> !AcceptedAt(states, calls, k)
    ensures AcceptedAt(states, calls, j) <==>
              Reaches(calls[j]) && PurgedBetween(calls, i, j + 1, calls[i].expires)
  {
    NonceKept(w, states, calls, i, j);
    PurgedStep(calls, i, j + 1, calls[i].expires);
  }

  /** Calls reach the tables in the order of their clock readings, and the second reading of a call is not earlier. */
  ghost predicate ClockMonotone(calls: seq<Call>)
  {
    && (forall k :: 0 <= k < |calls| ==> calls[k].checkedAt <= calls[k].now)
    && (forall i, k :: 0 <= i < k < |calls| ==> calls[i].now <= calls[k].now)
  }

  /**
   Replay, exactly, when calls reach the tables in the order of their readings: the
   next call with the key and expiry of an accepted one is accepted exactly when it
   passes the other checks and the expiry falls between its two clock readings.
   */
  lemma ReplayExactlyAcrossExpiry<P>(w: World<P>, states: seq<Tables>, calls: seq<Call>, i: nat, j: nat)
    requires CallRun(w, states, calls) && ClockMonotone(calls)
    requires i < j < |calls| && AcceptedAt(states, calls, i)
    requires calls[j].key == calls[i].key && calls[j].expires == calls[i].expires
    requires forall k :: i < k < j && calls[k].key == calls[i].key ==> !AcceptedAt(states, calls, k)
    ensures AcceptedAt(states, calls, j) <==>
              calls[j].passes && calls[j].checkedAt <= calls[j].expires < calls[j].now
  {
    ReuseExactly(w, states, calls, i, j);
  }

  /** The anonymous path reads the clock once. */
  predicate OneReading(c: Call)
  {
    c.checkedAt == c.now
  }

  /** The first acceptance of a key after call i, if there is one up to j. */
  lemma {:induction false} NextAcceptance(states: seq<Tables>, calls: seq<Call>, i: nat, j: nat) returns (k: nat)
    requires |states| == |calls| + 1 && i < j < |calls| && AcceptedAt(states, calls, j)
    requires calls[j].key == calls[i].key
    ensures i < k <= j && AcceptedAt(states, calls, k) && calls[k].key == calls[i].key
    ensures forall m :: i < m < k && calls[m].key == calls[i].key ==> !AcceptedAt(states, calls, m)
    decreases j
  {
    if m :| i < m < j && calls[m].key == calls[i].key && AcceptedAt(states, calls, m) {
      k := NextAcceptance(states, calls, i, m);
    } else {
      k := j;
    }
  }

  /** A key is accepted again only if some call since reached the tables with a reading past the first expiry. */
  lemma ReuseNeedsPurge<P>(w: World<P>, states: seq<Tables>, calls: seq<Call>, i: nat, j: nat)
    requires CallRun(w, states, calls) && i < j < |calls|
    requires AcceptedAt(states, calls, i) && AcceptedAt(states, calls, j) && calls[j].key == calls[i].key
    ensures PurgedBetween(calls, i, j + 1, calls[i].expires)
  {
    var k := NextAcceptance(states, calls, i, j);
    ReuseExactly(w, states, calls, i, k);
  }

  /** With readings in order, a key is accepted again only after the first envelope that used it has expired. */
  lemma ReuseNeedsExpiry<P>(w: World<P>, states: seq<Tables>, calls: seq<Call>, i: nat, j: nat)
    requires CallRun(w, states, calls) && ClockMonotone(calls) && i < j < |calls|
    requires AcceptedAt(states, calls, i) && AcceptedAt(states, calls, j) && calls[j].key == calls[i].key
    ensures calls[j].now > calls[i].expires
  {
    ReuseNeedsPurge(w, states, calls, i, j);
  }

  /** With readings in order, a call that reads the clock once is not accepted with a key and expiry accepted before. */
  lemma OneReadingAtMostOnce<P>(w: World<P>, states: seq<Tables>, calls: seq<Call>, i: nat, j: nat)
    requires CallRun(w, states, calls) && ClockMonotone(calls) && i < j < |calls|
    requires AcceptedAt(states, calls, i)
    requires calls[j].key == calls[i].key && calls[j].expires == calls[i].expires
    requires OneReading(calls[j])
    ensures !AcceptedAt(states, calls, j)
  {
    if AcceptedAt(states, calls, j) {
      ReuseNeedsExpiry(w, states, calls, i, j);
    }
  }

  /** Without that order, it is accepted exactly when a call in between purged past the expiry. */
  lemma OneReadingReuse<P>(w: World<P>, states: seq<Tables>, calls: seq<Call>, i: nat, j: nat)
    requires CallRun(w, states, calls) && i < j < |calls| && AcceptedAt(states, calls, i)
    requires calls[j].key == calls[i].key && calls[j].expires == calls[i].expires && OneReading(calls[j])
    requires forall k :: i < k < j && calls[k].key == calls[i].key ==> !AcceptedAt(states, calls, k)
    ensures AcceptedAt(states, calls, j) <==> Reaches(calls[j]) && PurgedBetween(calls, i, j, calls[i].expires)
  {
    ReuseExactly(w, states, calls, i, j);
    PurgedStep(calls, i, j + 1, calls[i].expires);
  }

  // ---------- anonymous calls in these runs ----------

  /** The checks of an anonymous call before its nonce. */
  ghost predicate Admitted<P>(w: World<P>, proof: AnonProof<P>, now: i64)
  {
    WellFormed(w, proof, now) && Authorised(w, proof, CanonicalAnonEnvelopeJson(proof.envelope))
  }

  /** The conditions of one ring: it exists, its rule allows the action, and a member signed the envelope. */
  ghost predicate Vouches<P>(w: World<P>, e: AnonEnvelope, ringId: Text, sig: RS.Signature<P>)
  {
    && (e.tenantId, ringId) in w.rings
    && w.rings[(e.tenantId, ringId)].rule(e.action, e.configDigest)
    && RS.Accepts(w.suite, CanonicalAnonEnvelopeJson(e), w.rings[(e.tenantId, ringId)].members, sig)
  }

  /**
   Admission spelled out: a named primary ring, a nonce of acceptable length, an expiry
   not past, further rings that are named, distinct and different from the primary one,
   a voucher from every ring, and the primary ring's budget not exceeded.
   */
  lemma AdmittedIff<P>(w: World<P>, proof: AnonProof<P>, now: i64)
    ensures var e := proof.envelope;
            Admitted(w, proof, now) <==>
              && w.trim(e.ringId) != [] && 16 <= |w.trim(e.nonce)| && |e.nonce| <= 128 && now <= e.expiresAt
              && |proof.also| == |e.alsoRingIds|
              && (forall i :: 0 <= i < |e.alsoRingIds| ==>
                    w.trim(e.alsoRingIds[i]) != [] && e.alsoRingIds[i] != e.ringId)
              && (forall i, j :: 0 <= i < j < |e.alsoRingIds| ==> e.alsoRingIds[i] != e.alsoRingIds[j])
              && Vouches(w, e, e.ringId, proof.signature)
              && (forall i :: 0 <= i < |e.alsoRingIds| ==> Vouches(w, e, e.alsoRingIds[i], proof.also[i]))
              && !w.overBudget(e.tenantId, e.ringId, w.pointHex(proof.signature.keyImage))
  {
    var e := proof.envelope;
    var msg := CanonicalAnonEnvelopeJson(e);
    assert RingAdmits(w, e, msg, e.ringId, proof.signature) <==> Vouches(w, e, e.ringId, proof.signature);
    if |proof.also| == |e.alsoRingIds| {
      forall i | 0 <= i < |e.alsoRingIds|
        ensures RingAdmits(w, e, msg, e.alsoRingIds[i], proof.also[i])
                <==> Vouches(w, e, e.alsoRingIds[i], proof.also[i])
      {
      }
    }
    DistinctRings(w, e);
  }

  lemma DistinctRings<P>(w: World<P>, e: AnonEnvelope)
    ensures (forall i :: 0 <= i < |e.alsoRingIds| ==> AlsoRingFine(w, e, i)) <==>
              && (forall i :: 0 <= i < |e.alsoRingIds| ==>
                    w.trim(e.alsoRingIds[i]) != [] && e.alsoRingIds[i] != e.ringId)
              && (forall i, j :: 0 <= i < j < |e.alsoRingIds| ==> e.alsoRingIds[i] != e.alsoRingIds[j])
  {
    if forall i :: 0 <= i < |e.alsoRingIds| ==> AlsoRingFine(w, e, i) {
      forall i, j | 0 <= i < j < |e.alsoRingIds|
        ensures e.alsoRingIds[i] != e.alsoRingIds[j]
      {
        assert AlsoRingFine(w, e, j) && e.alsoRingIds[..j][i] == e.alsoRingIds[i];
      }
      forall i | 0 <= i < |e.alsoRingIds|
        ensures w.trim(e.alsoRingIds[i]) != [] && e.alsoRingIds[i] != e.ringId
      {
        assert AlsoRingFine(w, e, i);
      }
    }
  }

  /** What the receipt of an anonymous action says, and that it names no agent, token, key or mandate. */
  lemma AnonDraftFields<P>(w: World<P>, proof: AnonProof<P>, now: i64, id: Text)
    requires Admitted(w, proof, now)
    ensures var e, r := proof.envelope, AnonCall(w, proof, now, id).draft;
            && r.tenantId == e.tenantId && r.receiptId == id && r.timestamp == now && r.status == Ascii("verified")
            && r.actionHash == w.actionHash(CanonicalAnonEnvelopeJson(e))
            && r.ringKeyImageHex == w.pointHex(proof.signature.keyImage)
            && r.agentId == r.ajwtJti == r.popJkt == r.ownerMandateHash == []
            && r.policyVersion == Joined([Tag(w, e.tenantId, e.ringId)] + Tags(w, e, |e.alsoRingIds|))
  {
    PolicyVersionJoined(w, proof.envelope, |proof.envelope.alsoRingIds|);
  }

  /** `ring:<id>:v<version>`, or nothing for a ring that does not exist. */
  function Tag<P(==)>(w: World<P>, tenantId: Text, ringId: Text): Text
  {
    if (tenantId, ringId) !in w.rings then []
    else [114, 105, 110, 103, 58] + ringId + [58, 118] + IntText(w.rings[(tenantId, ringId)].version)
  }

  function Tags<P(==)>(w: World<P>, e: AnonEnvelope, k: nat): (tags: seq<Text>)
    requires k <= |e.alsoRingIds|
  {
    seq(k, i requires 0 <= i < k => Tag(w, e.tenantId, e.alsoRingIds[i]))
  }

  /** The parts with a plus sign between neighbours. */
  function Joined(parts: seq<Text>): Text
    requires parts != []
  {
    if |parts| == 1 then parts[0] else parts[0] + [43] + Joined(parts[1..])
  }

  lemma {:induction false} JoinedSnoc(parts: seq<Text>, last: Text)
    requires parts != []
    ensures Joined(parts + [last]) == Joined(parts) + [43] + last
  {
    assert (parts + [last])[1..] == parts[1..] + [last];
    if |parts| > 1 {
      JoinedSnoc(parts[1..], last);
    }
  }

  lemma TagIs<P>(w: World<P>, tenantId: Text, ringId: Text)
    requires (tenantId, ringId) in w.rings
    ensures RingTag(w, tenantId, ringId) == Tag(w, tenantId, ringId)
  {
    assert Ascii("ring:") == [114, 105, 110, 103, 58] && Ascii(":v") == [58, 118];
  }

  /** The policy version lists the tags of all rings, the primary one first. */
  lemma {:induction false} PolicyVersionJoined<P>(w: World<P>, e: AnonEnvelope, k: nat)
    requires k <= |e.alsoRingIds| && (e.tenantId, e.ringId) in w.rings
    requires forall i :: 0 <= i < k ==> (e.tenantId, e.alsoRingIds[i]) in w.rings
    ensures PolicyVersion(w, e, k) == Joined([Tag(w, e.tenantId, e.ringId)] + Tags(w, e, k))
  {
    var first := Tag(w, e.tenantId, e.ringId);
    if k == 0 {
      TagIs(w, e.tenantId, e.ringId);
      assert [first] + Tags(w, e, 0) == [first];
    } else {
      PolicyVersionJoined(w, e, k - 1);
      PolicyVersionStep(w, e, k);
      TagsSnoc(w, e, k);
      JoinedStep(first, Tags(w, e, k - 1), Tag(w, e.tenantId, e.alsoRingIds[k - 1]));
    }
  }

  lemma TagsSnoc<P>(w: World<P>, e: AnonEnvelope, k: nat)
    requires 0 < k <= |e.alsoRingIds|
    ensures Tags(w, e, k) == Tags(w, e, k - 1) + [Tag(w, e.tenantId, e.alsoRingIds[k - 1])]
  {
  }

  lemma JoinedStep(first: Text, tags: seq<Text>, last: Text)
    ensures Joined([first] + (tags + [last])) == Joined([first] + tags) + [43] + last
  {
    JoinedSnoc([first] + tags, last);
    assert [first] + (tags + [last]) == [first] + tags + [last];
  }

  lemma PolicyVersionStep<P>(w: World<P>, e: AnonEnvelope, k: nat)
    requires 0 < k <= |e.alsoRingIds| && (e.tenantId, e.ringId) in w.rings
    requires forall i :: 0 <= i < k ==> (e.tenantId, e.alsoRingIds[i]) in w.rings
    ensures PolicyVersion(w, e, k) == PolicyVersion(w, e, k - 1) + [43] + Tag(w, e.tenantId, e.alsoRingIds[k - 1])
  {
    TagIs(w, e.tenantId, e.alsoRingIds[k - 1]);
    assert Ascii("+") == [43];
  }

  /** An anonymous request as a call of a run. */
  ghost function AnonCall<P>(w: World<P>, proof: AnonProof<P>, now: i64, receiptId: Text): Call
  {
    var e := proof.envelope;
    var draft := if Admitted(w, proof, now) then AnonDraft(w, proof, now, receiptId)
                 else Receipt(e.tenantId, receiptId, [], [], [], [], [], [], now, [], [], 0, [], []);
    Call(AnonNonceKey(w, proof), e.expiresAt, now, now, Admitted(w, proof, now), draft)
  }

  lemma AnonCallParts<P>(w: World<P>, proof: AnonProof<P>, now: i64, receiptId: Text)
    ensures var c := AnonCall(w, proof, now, receiptId);
            && c.key == AnonNonceKey(w, proof) && c.expires == proof.envelope.expiresAt && OneReading(c)
            && (Reaches(c) <==> Admitted(w, proof, now))
  {
  }

  /** The same pseudonym with the same envelope; the signatures may differ. */
  predicate SameRequest<P(==)>(p: AnonProof<P>, q: AnonProof<P>)
  {
    p.envelope == q.envelope && p.signature.keyImage == q.signature.keyImage
  }

  /** Every acceptance was admitted by every ring named in the envelope, whose rules all allow the action. */
  lemma AcceptedIsAdmitted<P>(
    v: World<P>, proof: AnonProof<P>, now: i64, receiptId: Text, states: seq<Tables>, calls: seq<Call>, k: nat,
    ringId: Text)
    requires |states| == |calls| + 1 && AcceptedAt(states, calls, k) && calls[k] == AnonCall(v, proof, now, receiptId)
    requires ringId == proof.envelope.ringId || ringId in proof.envelope.alsoRingIds
    ensures var e := proof.envelope;
            && (e.tenantId, ringId) in v.rings && v.rings[(e.tenantId, ringId)].rule(e.action, e.configDigest)
            && exists sig ::
                 && RS.Accepts(v.suite, CanonicalAnonEnvelopeJson(e), v.rings[(e.tenantId, ringId)].members, sig)
                 && (sig == proof.signature || sig in proof.also)
    ensures proof.envelope.expiresAt >= now
  {
    var e := proof.envelope;
    var msg := CanonicalAnonEnvelopeJson(e);
    if ringId == e.ringId {
      assert RingAdmits(v, e, msg, ringId, proof.signature);
    } else {
      var i :| 0 <= i < |e.alsoRingIds| && e.alsoRingIds[i] == ringId;
      assert RingAdmits(v, e, msg, ringId, proof.also[i]);
    }
  }

  /**
   Repeating an accepted anonymous request, exactly, with no assumption on the order of
   readings and with rings, rules and budgets that may have changed: it is accepted
   again exactly when it is admitted and a call in between, read after the envelope's
   expiry, reached the tables first.
   */
  lemma AnonymousReuseExactly<P>(
    w: World<P>, states: seq<Tables>, calls: seq<Call>, i: nat, j: nat, u: World<P>, p: AnonProof<P>, t: i64, id: Text,
    v: World<P>, q: AnonProof<P>, t': i64, id': Text)
    requires CallRun(w, states, calls) && i < j < |calls| && AcceptedAt(states, calls, i)
    requires calls[i] == AnonCall(u, p, t, id) && calls[j] == AnonCall(v, q, t', id')
    requires u.pointHex == v.pointHex && SameRequest(p, q)
    requires forall k :: i < k < j && calls[k].key == calls[i].key ==> !AcceptedAt(states, calls, k)
    ensures AcceptedAt(states, calls, j) <==>
              Admitted(v, q, t') && PurgedBetween(calls, i, j, p.envelope.expiresAt)
  {
    AnonCallParts(u, p, t, id);
    AnonCallParts(v, q, t', id');
    OneReadingReuse(w, states, calls, i, j);
  }

  /** So with readings in order a pseudonym's envelope is accepted at most once in a run. */
  lemma AnonymousAtMostOnce<P>(
    w: World<P>, states: seq<Tables>, calls: seq<Call>, i: nat, j: nat, u: World<P>, p: AnonProof<P>, t: i64, id: Text,
    v: World<P>, q: AnonProof<P>, t': i64, id': Text)
    requires CallRun(w, states, calls) && ClockMonotone(calls) && i < j < |calls| && AcceptedAt(states, calls, i)
    requires calls[i] == AnonCall(u, p, t, id) && calls[j] == AnonCall(v, q, t', id')
    requires u.pointHex == v.pointHex && SameRequest(p, q)
    ensures !AcceptedAt(states, calls, j)
  {
    AnonCallParts(u, p, t, id);
    AnonCallParts(v, q, t', id');
    OneReadingAtMostOnce(w, states, calls, i, j);
  }

  // ---------- runs that accept twice ----------

  /** No number in the table exceeds n. */
  ghost predicate Small(t: Table, n: int)
  {
    forall i :: 0 <= i < |t| ==> 0 <= t[i].seqNo <= n
  }

  lemma SmallHasRoom<P>(w: World<P>, t: Table, n: nat, draft: Receipt)
    requires Small(t, n) && n + 1 < I64_LIMIT
    ensures HasRoom(w, t, draft.tenantId) && Small(t + [Placed(w.digest, t, draft, w.sign)], n + 1)
  {
    var head := Head(t, draft.tenantId);
    if head.Some? {
      var i :| 0 <= i < |t| && t[i] == head.value;
    }
  }

  /** Every list of calls has its run from empty tables. */
  lemma {:induction false} RunExists<P>(w: World<P>, calls: seq<Call>) returns (states: seq<Tables>)
    requires |calls| < I64_LIMIT
    ensures CallRun(w, states, calls) && states[0] == Tables([], map[]) && Small(states[|calls|].receipts, |calls|)
  {
    if calls == [] {
      states := [Tables([], map[])];
    } else {
      var n := |calls| - 1;
      var before := RunExists(w, calls[..n]);
      var s, c := before[n], calls[n];
      SmallHasRoom(w, s.receipts, n, c.draft);
      var row := Placed(w.digest, s.receipts, c.draft, w.sign);
      var s' := if Reaches(c) then Consume(s, c.key, c.expires, c.now, row) else s;
      states := before + [s'];
      forall k | 0 <= k < |calls|
        ensures CallStep(w, states[k], calls[k], states[k + 1])
      {
        assert k < n ==> CallStep(w, before[k], calls[..n][k], before[k + 1]);
      }
    }
  }

  /**
   The identified path reads the clock twice, and then the same envelope can be
   accepted twice: its expiry second ends between the readings of the second call.
   */
  lemma IdentifiedReplayWitness<P>(w: World<P>, key: Text, draft: Receipt)
    returns (states: seq<Tables>, calls: seq<Call>)
    ensures CallRun(w, states, calls) && ClockMonotone(calls) && |calls| == 2
    ensures calls[0].key == calls[1].key == key && calls[0].expires == calls[1].expires
    ensures AcceptedAt(states, calls, 0) && AcceptedAt(states, calls, 1)
  {
    calls := [Call(key, 10, 10, 10, true, draft), Call(key, 10, 10, 11, true, draft)];
    states := RunExists(w, calls);
    assert CallStep(w, states[0], calls[0], states[1]);
    ReuseExactly(w, states, calls, 0, 1);
  }

  /**
   A call reads the clock before it takes the database lock.  Even with single
   readings, a call that overtakes a repetition and purges past the expiry lets the
   repetition through.
   */
  lemma OvertakenReplayWitness<P>(w: World<P>, key: Text, other: Text, draft: Receipt)
    returns (states: seq<Tables>, calls: seq<Call>)
    requires key != other
    ensures CallRun(w, states, calls) && |calls| == 3
    ensures calls[0].key == calls[2].key == key && calls[0].expires == calls[2].expires
    ensures forall k :: 0 <= k < 3 ==> OneReading(calls[k])
    ensures AcceptedAt(states, calls, 0) && AcceptedAt(states, calls, 2)
  {
    calls := [Call(key, 10, 9, 9, true, draft), Call(other, 20, 11, 11, true, draft),
              Call(key, 10, 10, 10, true, draft)];
    states := Overtaken(w, calls);
  }

  /** Whenever a call with another key, read after the expiry, comes between a call and its repetition. */
  lemma Overtaken<P>(w: World<P>, calls: seq<Call>) returns (states: seq<Tables>)
    requires |calls| == 3 && forall k :: 0 <= k < 3 ==> OneReading(calls[k]) && Reaches(calls[k])
    requires calls[0].key == calls[2].key != calls[1].key && calls[0].expires == calls[2].expires < calls[1].now
    ensures CallRun(w, states, calls) && AcceptedAt(states, calls, 0) && AcceptedAt(states, calls, 2)
  {
    states := RunExists(w, calls);
    assert AcceptedAt(states, calls, 0);
    assert PurgedBetween(calls, 0, 2, calls[0].expires) by {
      assert Reaches(calls[1]);
    }
    OneReadingReuse(w, states, calls, 0, 2);
  }

  /**
   The same for anonymous requests: p expires at t + 1 and is accepted at t; a request q
   read at t + 2 reaches the tables before the repetition of p read at t + 1, which is
   then accepted.
   */
  lemma AnonymousReplayWitness<P>(w: World<P>, p: AnonProof<P>, q: AnonProof<P>, t: i64, id: Text)
    returns (states: seq<Tables>, calls: seq<Call>)
    requires t + 2 < I64_LIMIT && p.envelope.expiresAt == t + 1
    requires Admitted(w, p, t) && Admitted(w, q, t + 2) && Admitted(w, p, t + 1)
    requires AnonNonceKey(w, p) != AnonNonceKey(w, q)
    ensures calls == [AnonCall(w, p, t, id), AnonCall(w, q, t + 2, id), AnonCall(w, p, t + 1, id)]
    ensures CallRun(w, states, calls) && AcceptedAt(states, calls, 0) && AcceptedAt(states, calls, 2)
  {
    AnonCallParts(w, p, t, id);
    AnonCallParts(w, q, t + 2, id);
    AnonCallParts(w, p, t + 1, id);
    calls := [AnonCall(w, p, t, id), AnonCall(w, q, t + 2, id), AnonCall(w, p, t + 1, id)];
    states := Overtaken(w, calls);
  }

  /** A world with one ring that allows everything and holds the point 0 of the residues modulo 2. */
  function OneRing(tenant: Text, ringId: Text): World<int>
  {
    World(RS.Residues(2, (p: int) => 0, (m: Text, x: int, y: int) => 0),
          map[(tenant, ringId) := Ring((a: Text, c: Text) => true, 1, [0])],
          (a: Text, b: Text, c: Text) => false, (p: int) => [97], (m: Text) => m, (m: Text) => m,
          (r: Receipt) => [], (r: Receipt) => [])
  }

  /** A request of its member. */
  function Ask(tenant: Text, ringId: Text, nonce: Text, expiresAt: int): AnonProof<int>
  {
    AnonProof(AnonEnvelope(tenant, ringId, [], [], [], [], 0, [], [], nonce, expiresAt), RS.Signature(0, [0], 0), [])
  }

  lemma AskAdmitted(tenant: Text, ringId: Text, nonce: Text, expiresAt: int, now: i64)
    requires ringId != [] && 16 <= |nonce| <= 128 && now <= expiresAt
    ensures Admitted(OneRing(tenant, ringId), Ask(tenant, ringId, nonce, expiresAt), now)
  {
    var w, proof := OneRing(tenant, ringId), Ask(tenant, ringId, nonce, expiresAt);
    var msg := CanonicalAnonEnvelopeJson(proof.envelope);
    var sig := proof.signature;
    assert RS.Walk(w.suite, msg, [0], sig.responses, sig.keyImage, 0, 1)
        == RS.Link(w.suite, msg, 0, 0, RS.Walk(w.suite, msg, [0], sig.responses, sig.keyImage, 0, 0), sig.keyImage);
    assert RingAdmits(w, proof.envelope, msg, ringId, sig);
  }

  /** Such requests exist, so the run above does, and what is proved of anonymous requests is not empty. */
  lemma AnonymousReplayExists(t: i64) returns (w: World<int>, p: AnonProof<int>, states: seq<Tables>, calls: seq<Call>)
    requires t + 2 < I64_LIMIT
    ensures CallRun(w, states, calls) && |calls| == 3
    ensures calls[0] == AnonCall(w, p, t, [1]) && calls[2] == AnonCall(w, p, t + 1, [1])
    ensures AcceptedAt(states, calls, 0) && AcceptedAt(states, calls, 2)
  {
    var nonce: Text, other: Text := seq(16, i => 97), seq(16, i => 98);
    var q := Ask([], [1], other, t + 2);
    w, p := OneRing([], [1]), Ask([], [1], nonce, t + 1);
    AskAdmitted([], [1], nonce, t + 1, t);
    AskAdmitted([], [1], nonce, t + 1, t + 1);
    AskAdmitted([], [1], other, t + 2, t + 2);
    assert AnonNonceKey(w, p)[2] != AnonNonceKey(w, q)[2];
    states, calls := AnonymousReplayWitness(w, p, q, t, [1]);
  }

  // ---------- one table for two kinds of keys ----------

  lemma BarPosition(h: Text, n: Text)
    requires BAR !in h
    ensures (h + [BAR] + n)[|h|] == BAR && forall i :: 0 <= i < |h| ==> (h + [BAR] + n)[i] != BAR
  {
    assert forall i :: 0 <= i < |h| ==> (h + [BAR] + n)[i] == h[i];
  }

  /** Distinct pairs of key image and nonce have distinct keys, since hexadecimal text has no bar. */
  lemma AnonNonceKeyInjective(h: Text, n: Text, h': Text, n': Text)
    requires BAR !in h && BAR !in h' && h + [BAR] + n == h' + [BAR] + n'
    ensures h == h' && n == n'
  {
    var s, s' := h + [BAR] + n, h' + [BAR] + n';
    BarPosition(h, n);
    BarPosition(h', n');
    assert |h| == |h'|;
    assert h == s[..|h|] && h' == s'[..|h|] && n == s[|h| + 1..] && n' == s'[|h| + 1..];
  }

  function FirstBar(n: Text): (i: nat)
    requires BAR in n
    ensures i < |n| && n[i] == BAR && BAR !in n[..i]
  {
    if n[0] == BAR then 0
    else
      assert n == [n[0]] + n[1..];
      var i := 1 + FirstBar(n[1..]);
      assert n[..i] == [n[0]] + n[1..][..i - 1];
      i
  }

  /** The length test of both paths. */
  ghost predicate NonceFits<P>(w: World<P>, nonce: Text)
  {
    16 <= |w.trim(nonce)| && |nonce| <= 128
  }

  /** No anonymous request with an acceptable nonce has this key. */
  ghost predicate ClearOfAnonymous<P(!new)>(w: World<P>, key: Text)
  {
    forall proof: AnonProof<P> :: NonceFits(w, proof.envelope.nonce) ==> AnonNonceKey(w, proof) != key
  }

  /** The key is the text of some point, a bar and an acceptable nonce. */
  ghost predicate AnonymousShape<P(!new)>(w: World<P>, key: Text)
  {
    && BAR in key && NonceFits(w, key[FirstBar(key) + 1..])
    && exists p :: w.pointHex(p) == key[..FirstBar(key)]
  }

  lemma ShapedRequest<P(!new)>(w: World<P>, key: Text) returns (proof: AnonProof<P>)
    requires AnonymousShape(w, key)
    ensures NonceFits(w, proof.envelope.nonce) && AnonNonceKey(w, proof) == key
  {
    var i := FirstBar(key);
    var p :| w.pointHex(p) == key[..i];
    var e := AnonEnvelope([], [], [], [], [], [], 0, [], [], key[i + 1..], 0);
    proof := AnonProof(e, RS.Signature(0, [], p), []);
  }

  /**
   Identified calls use their nonce as key in the same table.  Such a nonce stays clear
   of all anonymous requests exactly unless it has their shape.
   */
  lemma ClearOfAnonymousIff<P(!new)>(w: World<P>, key: Text)
    requires forall p: P :: BAR !in w.pointHex(p)
    ensures ClearOfAnonymous(w, key) <==> !AnonymousShape(w, key)
  {
    if AnonymousShape(w, key) {
      var proof := ShapedRequest(w, key);
    } else {
      forall proof: AnonProof<P> | NonceFits(w, proof.envelope.nonce)
        ensures AnonNonceKey(w, proof) != key
      {
        KeySplits(w, proof);
      }
    }
  }

  /** An anonymous key splits at its first bar into key image and nonce. */
  lemma KeySplits<P>(w: World<P>, proof: AnonProof<P>)
    requires BAR !in w.pointHex(proof.signature.keyImage)
    ensures var key := AnonNonceKey(w, proof);
            && BAR in key
            && key[..FirstBar(key)] == w.pointHex(proof.signature.keyImage)
            && key[FirstBar(key) + 1..] == proof.envelope.nonce
  {
    var h, n := w.pointHex(proof.signature.keyImage), proof.envelope.nonce;
    var key := h + [BAR] + n;
    assert key[|h|] == BAR;
    var i := FirstBar(key);
    assert key == key[..i] + [BAR] + key[i + 1..];
    AnonNonceKeyInjective(h, n, key[..i], key[i + 1..]);
  }

  /** An identified call that uses an admitted request's key as its nonce makes that request a replay. */
  lemma CrossPathBlockWitness<P>(w: World<P>, proof: AnonProof<P>, t: i64, id: Text, draft: Receipt)
    returns (states: seq<Tables>, calls: seq<Call>)
    requires Admitted(w, proof, t)
    ensures calls == [Call(AnonNonceKey(w, proof), t, t, t, true, draft), AnonCall(w, proof, t, id)]
    ensures CallRun(w, states, calls) && AcceptedAt(states, calls, 0)
    ensures Reaches(calls[1]) && !AcceptedAt(states, calls, 1)
  {
    AnonCallParts(w, proof, t, id);
    calls := [Call(AnonNonceKey(w, proof), t, t, t, true, draft), AnonCall(w, proof, t, id)];
    states := RunExists(w, calls);
    assert AcceptedAt(states, calls, 0);
    ReuseExactly(w, states, calls, 0, 1);
  }

  /** The number of accepted calls among the first k. */
  ghost function AcceptedCount(states: seq<Tables>, calls: seq<Call>, k: nat): nat
    requires |states| == |calls| + 1 && k <= |calls|
  {
    if k == 0 then 0 else AcceptedCount(states, calls, k - 1) + if AcceptedAt(states, calls, k - 1) then 1 else 0
  }

  /** In every run of both paths, chains stay linked and every acceptance adds exactly one receipt. */
  lemma {:induction false} RunKeepsReceipts<P>(w: World<P>, states: seq<Tables>, calls: seq<Call>, k: nat)
    requires CallRun(w, states, calls) && k <= |calls| && Sound(w.digest, states[0].receipts)
    ensures Sound(w.digest, states[k].receipts)
    ensures |states[k].receipts| == |states[0].receipts| + AcceptedCount(states, calls, k)
    ensures states[0].receipts <= states[k].receipts
  {
    if k > 0 {
      RunKeepsReceipts(w, states, calls, k - 1);
      assert CallStep(w, states[k - 1], calls[k - 1], states[k]);
      if AcceptedAt(states, calls, k - 1) {
        AppendSound(w.digest, states[k - 1].receipts, calls[k - 1].draft, w.sign);
      }
    }
  }

  /** In every run each accepted call writes its draft, signed, and no later call changes it. */
  lemma {:induction false} AcceptedRow<P>(
    w: World<P>, states: seq<Tables>, calls: seq<Call>, mac: Text -> Text, k: nat, n: nat)
    requires CallRun(w, states, calls) && Signs(w.sign, mac) && k < n <= |calls| && AcceptedAt(states, calls, k)
    ensures var i := |states[k].receipts|;
            && i < |states[n].receipts|
            && FromDraft(states[n].receipts[i], calls[k].draft) && Genuine(mac, states[n].receipts[i])
  {
    assert CallStep(w, states[n - 1], calls[n - 1], states[n - 1 + 1]);
    if n == k + 1 {
      PlacedIsGenuine(w.digest, states[k].receipts, calls[k].draft, w.sign, mac);
    } else {
      AcceptedRow(w, states, calls, mac, k, n - 1);
    }
  }
}
