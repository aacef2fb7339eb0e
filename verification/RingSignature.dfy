/**
 Linkable ring signatures over a prime-order group and the groups of members
 that sign with them.  The group is a parameter: any carrier with the two laws
 of a module over the scalars, of which the Ristretto group is one.  Both hash
 functions are parameters and stay uninterpreted; random draws are parameters.
 */
module RingSignature {
  import opened Bytes
  import opened NumberTheory

  /** Scalars are integers taken modulo `order`. */
  datatype Suite<!P(==), !M> = Suite(
    order: int,
    base: P,
    plus: (P, P) -> P,
    times: (int, P) -> P,
    hashToPoint: P -> P,
    challenge: (M, P, P) -> int)

  /** The laws of scalar multiplication used by the signature scheme. */
  ghost predicate Lawful<P(!new), M>(s: Suite<P, M>)
  {
    && s.order > 1
    && (forall a: int, b: int, p: P :: s.times((a + b) % s.order, p) == s.plus(s.times(a, p), s.times(b, p)))
    && (forall a: int, b: int, p: P :: s.times((a * b) % s.order, p) == s.times(a, s.times(b, p)))
  }

  /** The integers modulo q as a group, with whatever hash functions. */
  function Residues<M>(q: int, hashToPoint: int -> int, challenge: (M, int, int) -> int): Suite<int, M>
    requires q > 1
  {
    Suite(q, 1, (p, r) => (p + r) % q, (a, p) => (a * p) % q, hashToPoint, challenge)
  }

  lemma ResidueLaws(q: int, a: int, b: int, p: int)
    requires q > 1
    ensures ((a + b) % q * p) % q == ((a * p) % q + (b * p) % q) % q
    ensures ((a * b) % q * p) % q == (a * ((b * p) % q)) % q
  {
    CongMod(a + b, q);
    CongMul((a + b) % q, a + b, p, p, q);
    CongMod(a * p, q);
    CongMod(b * p, q);
    CongAdd((a * p) % q, a * p, (b * p) % q, b * p, q);
    assert (a + b) * p == a * p + b * p;
    CongMod(a * b, q);
    CongMul((a * b) % q, a * b, p, p, q);
    CongMul(a, a, (b * p) % q, b * p, q);
    Associate(a, b, p);
  }

  /** The laws have a model, so what is proved from them is not empty. */
  lemma ResiduesLawful<M>(q: int, hashToPoint: int -> int, challenge: (M, int, int) -> int)
    requires q > 1
    ensures Lawful(Residues(q, hashToPoint, challenge))
  {
    var s := Residues(q, hashToPoint, challenge);
    forall a: int, b: int, p: int
      ensures s.times((a + b) % s.order, p) == s.plus(s.times(a, p), s.times(b, p))
    {
      ResidueLaws(q, a, b, p);
    }
    forall a: int, b: int, p: int
      ensures s.times((a * b) % s.order, p) == s.times(a, s.times(b, p))
    {
      ResidueLaws(q, a, b, p);
    }
  }

  datatype Identity<P> = Identity(secret: int, public: P)

  function FromScalar<P, M>(s: Suite<P, M>, secret: int): Identity<P>
  {
    Identity(secret, s.times(secret, s.base))
  }

  function KeyImage<P, M>(s: Suite<P, M>, id: Identity<P>): P
  {
    s.times(id.secret, s.hashToPoint(id.public))
  }

  datatype Signature<P> = Signature(c0: int, responses: seq<int>, keyImage: P)

  /** The challenge that follows challenge c at ring member p with response z. */
  function Link<P, M>(s: Suite<P, M>, msg: M, p: P, z: int, c: int, image: P): int
  {
    s.challenge(msg,
                s.plus(s.times(z, s.base), s.times(c, p)),
                s.plus(s.times(z, s.hashToPoint(p)), s.times(c, image)))
  }

  /** The challenge reached from c after the first k members. */
  function Walk<P, M>(s: Suite<P, M>, msg: M, ring: seq<P>, z: seq<int>, image: P, c: int, k: nat): int
    requires k <= |ring| == |z|
  {
    if k == 0 then c
    else Link(s, msg, ring[k - 1], z[k - 1], Walk(s, msg, ring, z, image, c, k - 1), image)
  }

  /** The walk round the whole ring comes back to the challenge it started from. */
  predicate Accepts<P(==), M>(s: Suite<P, M>, msg: M, ring: seq<P>, sig: Signature<P>)
  {
    && |ring| > 0
    && |sig.responses| == |ring|
    && Walk(s, msg, ring, sig.responses, sig.keyImage, sig.c0, |ring|) == sig.c0
  }

  method Verify<P(==), M>(s: Suite<P, M>, msg: M, ring: seq<P>, sig: Signature<P>) returns (ok: bool)
    ensures ok <==> Accepts(s, msg, ring, sig)
    ensures |ring| == 0 ==> !ok
  {
    var n := |ring|;
    if n == 0 || |sig.responses| == 0 {
      return false;
    }
    if |sig.responses| != n {
      return false;
    }
    var c := sig.c0;
    for i := 0 to n
      invariant c == Walk(s, msg, ring, sig.responses, sig.keyImage, sig.c0, i)
    {
      c := Link(s, msg, ring[i], sig.responses[i], c, sig.keyImage);
    }
    return c == sig.c0;
  }

  /** The ring position after i. */
  function Next(i: nat, n: nat): (j: nat)
    requires i < n
    ensures j == if i + 1 < n then i + 1 else 0
  {
    DivModUnique(i + 1, if i + 1 < n then 0 else 1, if i + 1 < n then i + 1 else 0, n);
    (i + 1) % n
  }

  /** The ring position `offset` steps after the signer. */
  function At(signer: nat, offset: nat, n: nat): (i: nat)
    requires signer < n && offset < n
    ensures i == if signer + offset < n then signer + offset else signer + offset - n
  {
    var wraps := signer + offset >= n;
    DivModUnique(signer + offset, if wraps then 1 else 0, if wraps then signer + offset - n else signer + offset, n);
    (signer + offset) % n
  }

  /** The challenge after position i follows from the one at i. */
  ghost predicate Chained<P, M>(s: Suite<P, M>, msg: M, ring: seq<P>, z: seq<int>, image: P,
                                challenges: seq<int>, i: nat)
    requires i < |ring| == |z| == |challenges|
  {
    challenges[Next(i, |ring|)] == Link(s, msg, ring[i], z[i], challenges[i], image)
  }

  /** The loop of `sign`: from the signer's successor round to the signer, each challenge is linked to the last. */
  method FillChallenges<P(==), M>(s: Suite<P, M>, msg: M, ring: seq<P>, z: seq<int>, image: P, signer: nat, first: int)
    returns (filled: seq<int>)
    requires signer < |ring| == |z|
    ensures |filled| == |ring| && filled[Next(signer, |ring|)] == first
    ensures forall o :: 1 <= o < |ring| ==> Chained(s, msg, ring, z, image, filled, At(signer, o, |ring|))
  {
    var n := |ring|;
    var challenges := new int[n](_ => 0);
    challenges[Next(signer, n)] := first;
    for offset := 1 to n
      invariant challenges[Next(signer, n)] == first
      invariant forall o :: 1 <= o < offset ==> Chained(s, msg, ring, z, image, challenges[..], At(signer, o, n))
    {
      var i := At(signer, offset, n);
      var next := Next(i, n);
      ghost var before := challenges[..];
      challenges[next] := Link(s, msg, ring[i], z[i], challenges[i], image);
      assert challenges[..] == before[next := challenges[next]];
    }
    filled := challenges[..];
  }

  /**
   Signing fills the challenges round the ring and closes it with the secret.
   The draws are the random responses and the blinding scalar.  An index outside
   the ring makes the original panic.
   */
  method Sign<P(==, !new), M>(s: Suite<P, M>, msg: M, ring: seq<P>, id: Identity<P>, signer: nat,
                              draws: seq<int>, alpha: int)
    returns (sig: Signature<P>)
    requires 0 <= alpha < s.order && signer < |ring| == |draws|
    ensures sig.keyImage == KeyImage(s, id)
    ensures |sig.responses| == |ring|
    ensures forall i :: 0 <= i < |ring| && i != signer ==> sig.responses[i] == draws[i]
    ensures Lawful(s) && ring[signer] == id.public == s.times(id.secret, s.base) ==> Accepts(s, msg, ring, sig)
  {
    var image := KeyImage(s, id);
    var first := s.challenge(msg, s.times(alpha, s.base), s.times(alpha, s.hashToPoint(ring[signer])));
    var challenges := FillChallenges(s, msg, ring, draws, image, signer, first);
    var own := (alpha - challenges[signer] * id.secret) % s.order;
    sig := Signature(challenges[0], draws[signer := own], image);
    if Lawful(s) && ring[signer] == id.public == s.times(id.secret, s.base) {
      CloseRing(s, msg, ring, draws, id, signer, alpha, challenges);
    }
  }

  /** Module law: a response and its challenge recombine to the blinding scalar. */
  lemma Recombine<P(!new), M>(s: Suite<P, M>, alpha: int, c: int, x: int, p: P)
    requires Lawful(s) && 0 <= alpha < s.order
    ensures s.plus(s.times((alpha - c * x) % s.order, p), s.times(c, s.times(x, p))) == s.times(alpha, p)
  {
    var q := s.order;
    var z, y := (alpha - c * x) % q, (c * x) % q;
    assert s.times(c, s.times(x, p)) == s.times(y, p);
    assert s.plus(s.times(z, p), s.times(y, p)) == s.times((z + y) % q, p);
    CongMod(alpha - c * x, q);
    CongMod(c * x, q);
    CongAdd(z, alpha - c * x, y, c * x, q);
    DivModUnique(alpha, 0, alpha, q);
  }

  /** A cycle of challenges is what the verifier's walk retraces. */
  lemma {:induction false} WalkFollowsCycle<P, M>(s: Suite<P, M>, msg: M, ring: seq<P>, z: seq<int>, image: P,
                                                  challenges: seq<int>, k: nat)
    requires k <= |ring| == |z| == |challenges| && |ring| > 0
    requires forall i :: 0 <= i < |ring| ==> Chained(s, msg, ring, z, image, challenges, i)
    ensures Walk(s, msg, ring, z, image, challenges[0], k) == challenges[if k == |ring| then 0 else k]
  {
    if k > 0 {
      WalkFollowsCycle(s, msg, ring, z, image, challenges, k - 1);
      assert Chained(s, msg, ring, z, image, challenges, k - 1);
    }
  }

  /** The challenges round the ring, each computed from the one before, the last leading back to the first. */
  ghost predicate IsCycle<P, M>(s: Suite<P, M>, msg: M, ring: seq<P>, sig: Signature<P>, c: seq<int>)
  {
    && |c| == |ring| == |sig.responses| > 0 && c[0] == sig.c0
    && forall i :: 0 <= i < |ring| ==> CycleAt(s, msg, ring, sig, c, i)
  }

  ghost predicate CycleAt<P, M>(s: Suite<P, M>, msg: M, ring: seq<P>, sig: Signature<P>, c: seq<int>, i: nat)
    requires i < |c| == |ring| == |sig.responses|
  {
    c[if i + 1 < |ring| then i + 1 else 0]
    == s.challenge(msg,
                   s.plus(s.times(sig.responses[i], s.base), s.times(c[i], ring[i])),
                   s.plus(s.times(sig.responses[i], s.hashToPoint(ring[i])), s.times(c[i], sig.keyImage)))
  }

  /** The challenges the verifier passes through. */
  ghost function Visited<P, M>(s: Suite<P, M>, msg: M, ring: seq<P>, sig: Signature<P>): seq<int>
    requires |sig.responses| == |ring|
  {
    seq(|ring|, i requires 0 <= i < |ring| => Walk(s, msg, ring, sig.responses, sig.keyImage, sig.c0, i))
  }

  /** A signature is accepted exactly when such challenges exist: verification refuses everything else. */
  lemma AcceptsIffCycle<P, M>(s: Suite<P, M>, msg: M, ring: seq<P>, sig: Signature<P>)
    ensures Accepts(s, msg, ring, sig) <==> exists c :: IsCycle(s, msg, ring, sig, c)
  {
    if Accepts(s, msg, ring, sig) {
      AcceptedCycle(s, msg, ring, sig);
    }
    if c :| IsCycle(s, msg, ring, sig, c) {
      CycleAccepted(s, msg, ring, sig, c);
    }
  }

  lemma AcceptedCycle<P, M>(s: Suite<P, M>, msg: M, ring: seq<P>, sig: Signature<P>)
    requires Accepts(s, msg, ring, sig)
    ensures IsCycle(s, msg, ring, sig, Visited(s, msg, ring, sig))
  {
    var c := Visited(s, msg, ring, sig);
    forall i | 0 <= i < |ring|
      ensures CycleAt(s, msg, ring, sig, c, i)
    {
      assert Walk(s, msg, ring, sig.responses, sig.keyImage, sig.c0, i + 1)
          == Link(s, msg, ring[i], sig.responses[i], c[i], sig.keyImage);
    }
  }

  lemma CycleAccepted<P, M>(s: Suite<P, M>, msg: M, ring: seq<P>, sig: Signature<P>, c: seq<int>)
    requires IsCycle(s, msg, ring, sig, c)
    ensures Accepts(s, msg, ring, sig)
  {
    forall i | 0 <= i < |ring|
      ensures Chained(s, msg, ring, sig.responses, sig.keyImage, c, i)
    {
      assert CycleAt(s, msg, ring, sig, c, i);
    }
    WalkFollowsCycle(s, msg, ring, sig.responses, sig.keyImage, c, |ring|);
  }

  /** With one member: exactly if the challenge comes back to itself in one step. */
  lemma OneMemberIff<P, M>(s: Suite<P, M>, msg: M, p: P, sig: Signature<P>)
    ensures Accepts(s, msg, [p], sig) <==>
              && |sig.responses| == 1
              && sig.c0 == s.challenge(
                   msg,
                   s.plus(s.times(sig.responses[0], s.base), s.times(sig.c0, p)),
                   s.plus(s.times(sig.responses[0], s.hashToPoint(p)), s.times(sig.c0, sig.keyImage)))
  {
    AcceptsIffCycle(s, msg, [p], sig);
    if c :| IsCycle(s, msg, [p], sig, c) {
      assert CycleAt(s, msg, [p], sig, c, 0);
    }
    assert |sig.responses| == 1 && CycleAt(s, msg, [p], sig, [sig.c0], 0) ==> IsCycle(s, msg, [p], sig, [sig.c0]);
  }

  /** With the signer's response in place the challenges form a closed cycle. */
  lemma CloseRing<P(!new), M>(s: Suite<P, M>, msg: M, ring: seq<P>, draws: seq<int>, id: Identity<P>, signer: nat,
                              alpha: int, challenges: seq<int>)
    requires Lawful(s) && 0 <= alpha < s.order && signer < |ring| == |draws| == |challenges|
    requires ring[signer] == id.public == s.times(id.secret, s.base)
    requires challenges[Next(signer, |ring|)] ==
               s.challenge(msg, s.times(alpha, s.base), s.times(alpha, s.hashToPoint(ring[signer])))
    requires forall o :: 1 <= o < |ring| ==>
      Chained(s, msg, ring, draws, KeyImage(s, id), challenges, At(signer, o, |ring|))
    ensures var z := draws[signer := (alpha - challenges[signer] * id.secret) % s.order];
            Accepts(s, msg, ring, Signature(challenges[0], z, KeyImage(s, id)))
  {
    var n, image, c := |ring|, KeyImage(s, id), challenges[signer];
    var z := draws[signer := (alpha - c * id.secret) % s.order];
    forall i | 0 <= i < n
      ensures Chained(s, msg, ring, z, image, challenges, i)
    {
      if i == signer {
        Recombine(s, alpha, c, id.secret, s.base);
        Recombine(s, alpha, c, id.secret, s.hashToPoint(ring[signer]));
      } else {
        var o := if i > signer then i - signer else i + n - signer;
        assert At(signer, o, n) == i;
        assert Chained(s, msg, ring, draws, image, challenges, i);
      }
    }
    WalkFollowsCycle(s, msg, ring, z, image, challenges, n);
  }

  /** A group of members that prove and verify over the list of their public points. */
  class AdultGroup<P(==, !new)> {
    var members: seq<P>

    ghost predicate Valid()
      reads this
    {
      forall i, j :: 0 <= i < j < |members| ==> members[i] != members[j]
    }

    constructor ()
      ensures Valid() && members == []
    {
      members := [];
    }

    /** Adding a member twice changes nothing, so members stay distinct. */
    method AddMember(public: P)
      requires Valid()
      modifies this
      ensures Valid() && public in members
      ensures members == if public in old(members) then old(members) else old(members) + [public]
    {
      if public !in members {
        members := members + [public];
      }
    }

    /** Exactly the members of the group can produce a proof, and the group verifies it. */
    method Prove<M>(s: Suite<P, M>, id: Identity<P>, msg: M, draws: seq<int>, alpha: int)
      returns (proof: Option<Signature<P>>)
      requires 0 <= alpha < s.order && |draws| == |members|
      ensures proof.None? <==> id.public !in members
      ensures proof.Some? ==> proof.value.keyImage == KeyImage(s, id)
      ensures proof.Some? && Lawful(s) && id.public == s.times(id.secret, s.base) ==>
                Accepts(s, msg, members, proof.value)
    {
      for i := 0 to |members|
        invariant id.public !in members[..i]
      {
        if members[i] == id.public {
          var sig := Sign(s, msg, members, id, i, draws, alpha);
          return Some(sig);
        }
      }
      return None;
    }

    method VerifyProof<M>(s: Suite<P, M>, msg: M, sig: Signature<P>) returns (ok: bool)
      ensures ok <==> Accepts(s, msg, members, sig)
      ensures members == [] ==> !ok
    {
      ok := Verify(s, msg, members, sig);
    }
  }
}
