/**
 Per-ring pseudonyms with an operator trapdoor.  The agent holds a master scalar
 a, the operator a trapdoor t; both reach the same shared point and from it the
 same per-ring key, the agent through its secret and the operator through the
 agent's public point only.
 */
module RingPseudonym {
  import opened NumberTheory
  import opened RingSignature

  /** The scalar a shared point and a ring identifier hash to. */
  type OffsetHash<!P> = (P, string) -> int

  function SharedSecretAgent<P, M>(s: Suite<P, M>, a: int, operatorPublic: P): P
  {
    s.times(a, operatorPublic)
  }

  function SharedSecretOperator<P, M>(s: Suite<P, M>, t: int, agentPublic: P): P
  {
    s.times(t, agentPublic)
  }

  function AgentPerRingSecret<P, M>(s: Suite<P, M>, h: OffsetHash<P>, a: int, shared: P, ringId: string): int
    requires s.order > 0
  {
    (a + h(shared, ringId)) % s.order
  }

  function PerRingPublic<P, M>(s: Suite<P, M>, h: OffsetHash<P>, agentPublic: P, shared: P, ringId: string): P
  {
    s.plus(agentPublic, s.times(h(shared, ringId), s.base))
  }

  function PerRingKeyImage<P, M>(s: Suite<P, M>, perRingSecret: int, perRingPublic: P): P
  {
    s.times(perRingSecret, s.hashToPoint(perRingPublic))
  }

  function AgentRingIdentity<P, M>(s: Suite<P, M>, h: OffsetHash<P>, a: int, shared: P, ringId: string): Identity<P>
    requires s.order > 0
  {
    FromScalar(s, AgentPerRingSecret(s, h, a, shared, ringId))
  }

  /** The Diffie-Hellman points of agent and operator coincide. */
  lemma SharedSecretsAgree<P(!new), M>(s: Suite<P, M>, a: int, t: int)
    requires Lawful(s)
    ensures SharedSecretAgent(s, a, s.times(t, s.base)) == SharedSecretOperator(s, t, s.times(a, s.base))
  {
    assert s.times((a * t) % s.order, s.base) == s.times(a, s.times(t, s.base));
    assert s.times((t * a) % s.order, s.base) == s.times(t, s.times(a, s.base));
    assert a * t == t * a;
  }

  /** The point the operator derives from public data is the public key of the agent's per-ring identity. */
  lemma OperatorDerivesAgentKey<P(!new), M>(s: Suite<P, M>, h: OffsetHash<P>, a: int, t: int, ringId: string)
    requires Lawful(s)
    ensures var agentPublic, operatorPublic := s.times(a, s.base), s.times(t, s.base);
            PerRingPublic(s, h, agentPublic, SharedSecretOperator(s, t, agentPublic), ringId)
            == AgentRingIdentity(s, h, a, SharedSecretAgent(s, a, operatorPublic), ringId).public
  {
    SharedSecretsAgree(s, a, t);
    var offset := h(SharedSecretAgent(s, a, s.times(t, s.base)), ringId);
    assert s.times((a + offset) % s.order, s.base) == s.plus(s.times(a, s.base), s.times(offset, s.base));
  }

  /** Different scalars below the group order give different points. */
  ghost predicate Faithful<P, M>(s: Suite<P, M>)
  {
    forall x, y :: 0 <= x < s.order && 0 <= y < s.order && s.times(x, s.base) == s.times(y, s.base) ==> x == y
  }

  /** An agent has the same key in two rings exactly when the offsets of the two rings agree modulo the order. */
  lemma PseudonymsCoincideIff<P(!new), M>(
    s: Suite<P, M>, h: OffsetHash<P>, a: int, t: int, ring: string, ring': string)
    requires Lawful(s) && Faithful(s)
    ensures var agent, shared := s.times(a, s.base), s.times((a * t) % s.order, s.base);
            PerRingPublic(s, h, agent, SharedSecretOperator(s, t, agent), ring)
            == PerRingPublic(s, h, agent, SharedSecretOperator(s, t, agent), ring')
            <==> Cong(h(shared, ring), h(shared, ring'), s.order)
  {
    var shared := s.times((t * a) % s.order, s.base);
    var x, y := h(shared, ring), h(shared, ring');
    assert a * t == t * a;
    assert shared == s.times(t, s.times(a, s.base));
    assert s.times((a + x) % s.order, s.base) == s.plus(s.times(a, s.base), s.times(x, s.base));
    assert s.times((a + y) % s.order, s.base) == s.plus(s.times(a, s.base), s.times(y, s.base));
    if Cong(x, y, s.order) {
      CongAdd(a, a, x, y, s.order);
    } else if Cong(a + x, a + y, s.order) {
      CongAdd(-a, -a, a + x, a + y, s.order);
    }
  }

  /**
   End to end: over any ring in which the operator placed the point it derived,
   the agent's signature verifies and carries exactly the per-ring key image,
   whatever the message, the other members and the randomness.
   */
  method SignUnderPseudonym<P(==, !new), M>(s: Suite<P, M>, h: OffsetHash<P>, msg: M, ring: seq<P>, a: int, t: int,
                                            ringId: string, signer: nat, draws: seq<int>, alpha: int)
    returns (sig: Signature<P>)
    requires Lawful(s) && 0 <= alpha < s.order && signer < |ring| == |draws|
    requires var agentPublic := s.times(a, s.base);
             ring[signer] == PerRingPublic(s, h, agentPublic, SharedSecretOperator(s, t, agentPublic), ringId)
    ensures Accepts(s, msg, ring, sig)
    ensures var shared := SharedSecretAgent(s, a, s.times(t, s.base));
            sig.keyImage == PerRingKeyImage(s, AgentPerRingSecret(s, h, a, shared, ringId), ring[signer])
  {
    OperatorDerivesAgentKey(s, h, a, t, ringId);
    var shared := SharedSecretAgent(s, a, s.times(t, s.base));
    var id := AgentRingIdentity(s, h, a, shared, ringId);
    sig := Sign(s, msg, ring, id, signer, draws, alpha);
  }
}
