# SauronID core: a verified model

SauronID is an authorization gateway for AI agents with a verifiable audit log. This
project models the parts of it whose correctness is decided by the code itself, and
proves what they promise, for every input and every run. `dafny verify dfyconfig.toml`
checks the whole project.

| file | part of the system |
|---|---|
| `NumberTheory.dfy`, `Paillier.dfy` | the Paillier client, key assembly and decryption, with the number theory behind them up to Fermat's little theorem |
| `RingSignature.dfy`, `RingPseudonym.dfy` | linkable ring signatures, member groups, per-ring pseudonyms with an operator trapdoor |
| `Bytes.dfy`, `CanonicalFields.dfy`, `CanonicalJson.dfy`, `SignedPayloads.dfy` | the byte encodings that are signed and hashed, each with a decoder that inverts it |
| `JsonReader.dfy`, `PayloadReader.dfy` | what any reader finds in them: each field under its own literal name |
| `Receipts.dfy`, `ReceiptChain.dfy`, `ActionStore.dfy` | action receipts, the per-tenant hash chain, and the two validation paths that write it |
| `AnchorBatches.dfy`, `AnchorRuns.dfy` | batching of receipts for external anchoring, and the rebuild of a batch |
| `BudgetTracker.dfy`, `Evaluator.dfy`, `ToolProxy.dfy` | the SDK's spend ledger, policy evaluator and tool proxy |
| `ReplayWindow.dfy` | single use of call signatures and DPoP proofs |
| `Delegation.dfy`, `ChecksumRotation.dfy`, `ConfigCanonical.dfy`, `CircuitBreaker.dfy` | the delegation registry, checksum rotation, canonical configurations, issuer circuit breakers |

## How the model is built

* Tables are sequences, sets or maps. A run is a sequence of states linked by steps, and
  the main results are about every position of every run.
* Objects that the source updates in place are classes. Their methods are proved against
  pure specification functions, and the results about runs are proved about those functions.
* Hash functions, signature checks, the group of the ring signatures, clocks and random
  draws are parameters. No result assumes that a hash is free of collisions: the tamper
  evidence of the receipt chain ends in agreement or in a concrete collision.
* The ring signatures are proved for any structure with the two module laws stated in
  `Lawful`; `RingSignature.ResiduesLawful` shows that these laws have a model, and
  `Paillier.SmallKey` that there are keys.
* Strings of the Rust server are their UTF-8 bytes. USD amounts of the SDK are reals.

## Where the code does less than its documentation says

Each of these is kept as the code has it, shown by a concrete input or run, and followed by
the exact condition under which the promise holds.

* A ciphertext that shares a factor with the modulus is documented as an error. Only zero and
  out-of-range ciphertexts are refused; for the others decryption panics exactly when the
  modulus divides the ciphertext (`Paillier.DecryptPanicsExactlyOnMultiples`,
  `Paillier.DecryptPanicWitness`).
* A used action nonce is dropped by any call that reaches the tables with a clock reading past
  its expiry, and then the next call with that key is accepted if it passes its own checks;
  this is exact (`ActionStore.ReuseExactly`). An identified action reads the clock twice, so one
  envelope can be accepted twice by itself (`ActionStore.IdentifiedReplayWitness`). Both paths
  read the clock before they take the database lock, so an anonymous envelope can be accepted
  twice when another call overtakes its repetition (`ActionStore.AnonymousReplayWitness`,
  `ActionStore.AnonymousReplayExists`, `ActionStore.AnonymousReuseExactly`). If calls reach the tables in the order of their
  readings, an anonymous envelope is accepted at most once (`ActionStore.AnonymousAtMostOnce`)
  and an identified one exactly as `ActionStore.ReplayExactlyAcrossExpiry` says.
* Both paths keep their keys in one table. An identified nonce blocks an anonymous request
  exactly when it is the text of the request's key image, a bar and the request's nonce
  (`ActionStore.ClearOfAnonymousIff`, `ActionStore.CrossPathBlockWitness`).
* The proof endpoint looks a batch up by the receipt's second alone. It finds the receipt in
  the row it takes exactly unless that row begins or ends within the second with the receipt
  on the far side (`AnchorRuns.LookupFindsIff`); a covered receipt of a second with more
  receipts than a batch holds is missed (`AnchorRuns.LookupMissWitness`).
* The proof endpoint rebuilds a batch without the leaf for the audit head, so the rebuilt
  leaves equal the sealed ones exactly when no head was committed
  (`AnchorRuns.RunRebuiltLeaves`).
* A receipt that sorts at or below the end of a batch that is selected or pending, for example
  one of the same second with a smaller random id, is left behind if that batch is submitted
  (`AnchorRuns.PendingGapWitness`, `AnchorRuns.SameSecondGap`), and passes that read their
  watermark afterwards do not select it, apart from the ties that
  `AnchorRuns.LateReceiptNeverSelected` names. If the batch fails, a following pass can still
  take it along (`AnchorRuns.FailedPassRecovers`). Coverage survives an arrival in all continuations exactly
  when the receipt sorts after the end of every selected, pending or submitted batch of its
  tenant (`AnchorRuns.CoverageIff`).
* The watermark query has no second sort key. With ties at the top any number of passes can
  seal the same receipts again, whatever the cap (`AnchorRuns.TieWitness`); a pass moves the highest end forward exactly under
  the condition of `AnchorRuns.PassAdvancesIff`.
* A per-minute limit counts only calls that are recorded, and only while they are in the
  history of 1024 entries. It bounds the calls whose tool runs exactly when it is zero, or it is
  at most 1024, the calls carry an amount, their tools return and the classifier leaves the
  timestamp alone (`ToolProxy.BoundedIff`); in every other case `ToolProxy.UncountedCallsRun`
  is a run beyond the limit. Above 1024 the rate check passes in every state of every run
  (`ToolProxy.AboveCapNeverRefuses`).
* A call nonce can be used again with a later timestamp once the clean-up has passed its
  expiry (`ReplayWindow.ReuseIff`, `ReplayWindow.NonceReusedWitness`). The same signed call is
  accepted at most once if requests reach the nonce table within 59 clock seconds, or 59001
  milliseconds, of their timestamp check, and not beyond (`ReplayWindow.OnceWithinIff`,
  `ReplayWindow.OnceWithinMsIff`, `ReplayWindow.LateReplay`).
* The `dpop:` prefix is documented to keep proof identifiers apart from call nonces. It does
  so exactly for nonces that are not the prefix followed by 1 to 120 bytes
  (`ReplayWindow.KeysDisjointIff`, `ReplayWindow.PrefixCollisionWitness`).
* Issuer addresses are normalized more than once, and normalization is not idempotent. A
  trip is booked on another gate than the one that is read exactly when the normalized
  address ends in white space (`CircuitBreaker.TripsReachTheGateIff`,
  `CircuitBreaker.NormalizeNotIdempotent`).

## Model

| member | source | states |
|---|---|---|
| Paillier.ModPow | agentic/src/he-encrypt.ts:79-93 | square-and-multiply returns base^exp mod m, for negative bases too; a negative exponent gives 1 mod m; a zero modulus throws, and a negative one gives a number congruent to the power |
| Paillier.GreatestCommonDivisor | agentic/src/he-encrypt.ts:96-105 | Euclid's loop returns a common divisor that every common divisor divides, whatever the signs |
| Paillier.SampleZnStar | agentic/src/he-encrypt.ts:124-150 | the first draw that is a unit modulo n is returned; an error exactly when none of the draws is |
| Paillier.Encrypt | agentic/src/he-encrypt.ts:162-172 | messages outside [0, n) are refused; otherwise the result encrypts the message under one of the draws, or sampling was exhausted |
| Paillier.HomomorphicAddition | agentic/src/he-encrypt.ts:180-187 | adding two ciphertexts that encryption can produce gives one it can produce for the sum mod n, with the product of the randomness mod n, a unit |
| Paillier.MulScalar | agentic/src/he-encrypt.ts:194-204 | negative scalars are refused; otherwise the result encrypts m·k mod n with randomness r^k mod n |
| Paillier.Rerandomize | agentic/src/he-encrypt.ts:212-217 | the result encrypts the same plaintext with fresh randomness |
| Paillier.NthPowerLift | agentic/src/he-encrypt.ts:166-171 | r^n mod n² depends only on r mod n, which closure of the operations rests on |
| Paillier.ModInverse | core/src/he/paillier.rs:312-331 | an inverse exists exactly for units; it is the reduced inverse |
| Paillier.KeyAssemblesIff | core/src/he/paillier.rs:249-268 | two primes make a key exactly when they differ and neither divides the other minus one |
| Paillier.UnitToLambda | core/src/he/paillier.rs:256-258 | Carmichael's theorem: every unit modulo p·q has order dividing lcm(p-1, q-1) |
| Paillier.LcmLeast | core/src/he/paillier.rs:256-258 | the exponent is the least common multiple: both divide it, and it divides every common multiple |
| Paillier.DecryptEncrypt | core/src/he/paillier.rs:249-291 | decryption with a key assembled from two primes inverts encryption for every message and every unit |
| Paillier.ComputationDecrypts | core/src/he/paillier.rs:165-204 | any tree of encryptions, additions, scalar products and re-randomizations decrypts to the value of the same computation on plaintexts mod n |
| Paillier.DecryptPanicWitness | core/src/he/paillier.rs:275-291 | the ciphertext 35 under the key of 5 and 7 panics |
| Paillier.DecryptPanicsExactlyOnMultiples | core/src/he/paillier.rs:275-291 | for a non-zero ciphertext in range decryption panics exactly when n divides it |
| Paillier.DecryptRefusesIff | core/src/he/paillier.rs:275-291 | a ciphertext is refused exactly when it is zero or not below n² |
| RingSignature.Sign | core/src/ring.rs:29-63 | the signature carries the signer's key image and verifies whenever the signer's key is at the signer's position, for every ring size, position, message and randomness |
| RingSignature.FillChallenges | core/src/ring.rs:42-55 | going round the ring from the signer's successor with wrap-around, every challenge is linked to the one before |
| RingSignature.Verify | core/src/ring.rs:65-84 | accepts exactly when the walk round the ring closes; never an empty ring; `RingSignature.AcceptsIffCycle` says what that is |
| RingSignature.AcceptsIffCycle | core/src/ring.rs:65-84 | a signature is accepted exactly when there is a cycle of challenges, one for each member, that starts at its own and in which each is the challenge of the message and the two commitments of the member before |
| RingSignature.OneMemberIff | core/src/ring.rs:77-83 | for a ring of one, exactly when its challenge hashes to itself, so other signatures are rejected |
| RingSignature.CloseRing | core/src/ring.rs:38-62 | the signer's response turns the chain of challenges into a closed cycle |
| RingSignature.WalkFollowsCycle | core/src/ring.rs:77-83 | the verifier's walk retraces any closed cycle of challenges |
| RingSignature.AdultGroup.AddMember | core/src/ring.rs:99-103 | adding a present member changes nothing, so members stay distinct |
| RingSignature.AdultGroup.Prove | core/src/ring.rs:104-107 | exactly members get a proof, it carries their key image and the group accepts it |
| RingSignature.AdultGroup.VerifyProof | core/src/ring.rs:108-111 | accepts exactly the signatures that verify over the current members; an empty group accepts none |
| RingPseudonym.SharedSecretsAgree | core/src/ring_pseudonym.rs:46-61 | agent and operator reach the same shared point |
| RingPseudonym.OperatorDerivesAgentKey | core/src/ring_pseudonym.rs:63-110 | the point the operator derives from public data is the agent's own per-ring public key |
| RingPseudonym.PseudonymsCoincideIff | core/src/ring_pseudonym.rs:63-110 | an agent has the same key in two rings exactly when the offsets hashed from the shared point and the ring names agree modulo the group order |
| RingPseudonym.SignUnderPseudonym | core/src/ring_pseudonym.rs:74-110 | over any ring with that point the agent's signature verifies and its key image is the per-ring key image |
| CanonicalFields.PushLenPrefixed | core/src/crypto_protocol.rs:44-48 | appends the big-endian 32-bit length and the value |
| CanonicalFields.PrefixedLayout | core/src/crypto_protocol.rs:44-48 | the four bytes of the length, most significant first, and then the value |
| CanonicalFields.Canonical | core/src/crypto_protocol.rs:34-42 | the loop produces the encoding, and decoding it returns domain and fields |
| CanonicalFields.EncodeLayout | core/src/crypto_protocol.rs:34-42 | the domain comes first, and each field adds its name and then its value |
| CanonicalFields.RoundTrip | core/src/crypto_protocol.rs:34-48 | the decoder inverts the encoder for all fields below 2^32 bytes |
| CanonicalFields.DecodedExact | core/src/crypto_protocol.rs:34-48 | every byte string that decodes is the encoding of what it decodes to |
| CanonicalFields.EncodeInjective | core/src/crypto_protocol.rs:34-48 | equal bytes exactly for equal domain, field count, names and values |
| SignedPayloads.PayloadInjective | core/src/crypto_protocol.rs:64-212 | call signatures, owner mandates, partner registrations, login and attestation challenges have equal bytes exactly when they are of the same kind and agree in every field |
| SignedPayloads.NeverAReceipt | core/src/crypto_protocol.rs:64-212 | none of these byte strings is the signing or chain payload of a receipt |
| PayloadReader.PayloadRead | core/src/crypto_protocol.rs:64-212 | decoding finds each field of the five payloads under its literal name, in order, and the literal domain |
| CanonicalJson.StringRoundTrip | core/src/agent_action.rs:166-170 | a parser reads back every escaped string (section 7 of RFC 8259) |
| JsonReader.EscapedForms | core/src/agent_action.rs:166-170 | exactly quote, backslash and control bytes change, the latter to the short forms or four hexadecimal digits (section 7 of RFC 8259) |
| JsonReader.ObjectRead | core/src/agent_action.rs:172-187 | a reader of any object of strings, integers and lists of strings returns all names and values in order |
| CanonicalJson.EnvelopeRoundTrip | core/src/agent_action.rs:172-187 | a parser inverts the identified envelope printer, for all strings and integers |
| JsonReader.EnvelopeRead | core/src/agent_action.rs:172-187 | that reader finds in a printed identified envelope the eleven literal names, each with its own field, in order |
| CanonicalJson.EnvelopeInjective | core/src/agent_action.rs:172-187 | two identified envelopes print alike exactly when every field is equal |
| CanonicalJson.AnonEnvelopeRoundTrip | core/src/agent_action.rs:796-817 | a parser inverts the anonymous envelope printer, including the list of further rings |
| JsonReader.AnonEnvelopeRead | core/src/agent_action.rs:796-817 | the same for the anonymous envelope |
| CanonicalJson.AnonEnvelopeInjective | core/src/agent_action.rs:796-817 | two anonymous envelopes print alike exactly when every field is equal |
| CanonicalJson.EnvelopeKindsDisjoint | core/src/agent_action.rs:796-817 | no text is the canonical form of an identified and of an anonymous envelope |
| Receipts.ChainPayloadInjective | core/src/agent_action.rs:214-264 | chain payloads are equal exactly for receipts equal apart from the signature, across both payload versions |
| PayloadReader.ChainPayloadRead | core/src/agent_action.rs:214-264 | decoding finds each field under its literal name, the mandate only if there is one, and the domain that goes with it |
| Receipts.SigningPayloadInjective | core/src/agent_action.rs:266-326 | signing payloads are equal exactly for receipts of one version that agree on all it signs; for chained receipts that is everything but the signature |
| PayloadReader.SigningPayloadRead | core/src/agent_action.rs:266-326 | the same for the signing payload and its three versions |
| ReceiptChain.Head | core/src/agent_action.rs:333-352 | the row read as head belongs to the tenant and has its largest sequence number |
| ReceiptChain.HeadIsLast | core/src/agent_action.rs:333-352 | in a sound table the next position is one past the chain's length and links to its last receipt |
| ReceiptChain.VerifyReceiptChain | core/src/agent_action.rs:409-440 | returns the chain's length exactly when it is dense from 1 and linked, and otherwise the first position that is not |
| ReceiptChain.LinkedIff | core/src/agent_action.rs:409-440 | linked means: the first receipt has number 1 and no previous hash, each later one the next number and the hash of the one before |
| ReceiptChain.ChainAscending | core/src/agent_action.rs:409-420 | the verifier walks each chained receipt of the tenant once, by ascending number |
| ReceiptChain.AppendSound | core/src/agent_action.rs:333-352 | one append keeps every tenant's chain dense and linked |
| ReceiptChain.PlacedIsGenuine | core/src/agent_action.rs:667-696 | the appended receipt equals its draft except for number, previous hash and signature, and the signature is that of its own signing payload |
| ReceiptChain.RunKeepsChains | core/src/agent_action.rs:333-440 | from any legacy rows, after any run of appends for any mix of tenants, every chain verifies with exactly the number of that tenant's appends |
| ReceiptChain.RunRowsGenuine | core/src/agent_action.rs:442-455 | in every run each appended receipt keeps its draft and carries the signature that verification recomputes |
| ReceiptChain.SubTableVerifiesIffPrefix | core/src/agent_action.rs:409-440 | what is left of a valid chain after deletions still verifies exactly when it is a prefix |
| ReceiptChain.TamperEvidence | core/src/agent_action.rs:214-440 | two tables that verify with the same length and last chain hash agree on every committed field at every position, or exhibit a hash collision |
| ActionStore.CheckEnvelope | core/src/agent_action.rs:838-870 | the envelope checks pass exactly for an unexpired envelope with distinct, non-empty further rings and one signature for each; each refusal names its cause |
| ActionStore.CheckRings | core/src/agent_action.rs:876-955 | passes exactly when every named ring exists, accepts the signature and the digest and allows the action, and the primary ring's budget is not exceeded; the budget is blamed exactly when it alone fails |
| ActionStore.AdmittedIff | core/src/agent_action.rs:838-955 | a request is admitted exactly when ring and nonce are well formed, it is unexpired, its rings are distinct, each exists, allows the action and has a signature over this envelope, and the primary ring is within budget |
| ActionStore.AnonDraftFields | core/src/agent_action.rs:980-1003 | the receipt has the hash of the envelope text, the key image, the list `ring:<id>:v<version>` of all its rings and the time, and no agent, token, key or mandate |
| ActionStore.Database.ValidateAnonAction | core/src/agent_action.rs:832-1029 | a refused call changes nothing; otherwise expired nonces go, and the call is accepted with one receipt at the chain head exactly when its nonce is new; in runs it is the call `AnonCall` of its proof |
| ActionStore.Database.ValidateAgentAction | core/src/agent_action.rs:501-736 | the same for the identified path, whose expiry check and clean-up read the clock separately |
| ActionStore.NonceKept | core/src/agent_action.rs:957-976 | until the next acceptance of its key a used nonce is in the table exactly as long as no call with a reading past its expiry reached the clean-up |
| ActionStore.ReuseExactly | core/src/agent_action.rs:957-976 | the next call with a used key is accepted exactly when it passes its checks and it or a call since reached the clean-up with a reading past the first expiry, whatever the order of readings |
| ActionStore.ReplayExactlyAcrossExpiry | core/src/agent_action.rs:501-660 | with readings in the order of arrival, the next call with the same key and expiry is accepted exactly when the expiry lies between its two readings |
| ActionStore.ReuseNeedsPurge | core/src/agent_action.rs:957-976 | in any run a key is accepted again only after a call with a reading past the first expiry |
| ActionStore.ReuseNeedsExpiry | core/src/agent_action.rs:957-976 | with readings in the order of arrival, only by a call read after that expiry |
| ActionStore.OneReadingReuse | core/src/agent_action.rs:848-978 | a repetition with one reading is accepted exactly when it passes its checks and a call in between purged past the expiry |
| ActionStore.AcceptedIsAdmitted | core/src/agent_action.rs:876-938 | every accepted anonymous request is unexpired, and every ring it names exists, allows the action and has a signature over the envelope that verifies |
| ActionStore.AnonymousReuseExactly | core/src/agent_action.rs:848-978 | a pseudonym's repeated envelope is accepted again exactly when it is admitted and a call read after its expiry came in between, even if rings, rules and budgets changed |
| ActionStore.AnonymousAtMostOnce | core/src/agent_action.rs:848-978 | with readings in the order of arrival, a key image and envelope is accepted at most once in a run |
| ActionStore.IdentifiedReplayWitness | core/src/agent_action.rs:501-660 | a run in which the identified path accepts one envelope twice |
| ActionStore.OvertakenReplayWitness | core/src/agent_action.rs:1042-1045 | a run of single readings in which a call overtakes a repetition and the repetition is accepted |
| ActionStore.AnonymousReplayWitness | core/src/agent_action.rs:1042-1045 | that run for any two admitted anonymous requests with different keys |
| ActionStore.AnonymousReplayExists | core/src/agent_action.rs:1042-1045 | a world, two such requests and the run |
| ActionStore.ClearOfAnonymousIff | core/src/agent_action.rs:653-963 | an identified nonce has the key of no anonymous request exactly unless it is the text of a point, a bar and an acceptable nonce |
| ActionStore.KeySplits | core/src/agent_action.rs:963-963 | an anonymous key splits at its first bar into key image and nonce |
| ActionStore.CrossPathBlockWitness | core/src/agent_action.rs:653-978 | for every admitted anonymous request, a run in which an identified call makes it a replay |
| ActionStore.AnonNonceKeyInjective | core/src/agent_action.rs:963-963 | the nonce key determines key image and nonce |
| ActionStore.RunKeepsReceipts | core/src/agent_action.rs:980-1026 | every run keeps the chains sound, adds exactly one receipt per acceptance and never changes an earlier one |
| ActionStore.AcceptedRow | core/src/agent_action.rs:980-1026 | in every run of both paths the receipt of an accepted call has its draft's fields and a signature over its own payload, and stays in place |
| AnchorBatches.SelectionIsInterval | core/src/agent_action_anchor.rs:211-238 | the capped selection after the watermark is exactly the tenant's receipts up to its last one |
| AnchorBatches.RebuildReturnsSelection | core/src/agent_action_anchor.rs:589-613 | with nothing inserted inside the bounds since, the range query returns the sealed selection in order |
| AnchorBatches.LeafPayloadInjective | core/src/agent_action_anchor.rs:136-157 | equal leaf payloads mean equal receipt rows |
| PayloadReader.LeafRead | core/src/agent_action_anchor.rs:136-157 | decoding a leaf finds every column under its literal name |
| AnchorBatches.LeafKindsDisjoint | core/src/agent_action_anchor.rs:123-157 | a receipt leaf and an audit-head leaf never have the same payload |
| PayloadReader.HeadRead | core/src/agent_action_anchor.rs:123-134 | decoding the audit-head leaf finds tenant, position and entry hash under their names |
| AnchorRuns.AnchorStatus | core/src/agent_action_anchor.rs:400-407 | submitted exactly when a provider is enabled and every enabled one succeeded; failed exactly when none succeeded |
| AnchorRuns.RunInv | core/src/agent_action_anchor.rs:190-421 | in every interleaving of passes, each selected, pending or submitted batch holds exactly the receipts between the watermark it was selected from, which is the end of an earlier submitted batch, and its own end |
| AnchorRuns.Coverage | core/src/agent_action_anchor.rs:197-421 | in every run the receipts in submitted batches are exactly those up to the highest submitted end, through caps, stale watermarks, overlapping passes, retries, failures and ties |
| AnchorRuns.CoverageIff | core/src/agent_action_anchor.rs:197-421 | in every reachable state coverage survives the arrival of a receipt in all continuations exactly when it sorts after the end of every selected, pending or submitted batch of its tenant |
| AnchorRuns.GapFollows | core/src/agent_action_anchor.rs:190-421 | otherwise the worker alone reaches a state with the receipt in a gap |
| AnchorRuns.RunRebuild | core/src/agent_action_anchor.rs:589-613 | in every run the rebuild of a live batch returns what was sealed |
| AnchorRuns.RunRebuiltLeaves | core/src/agent_action_anchor.rs:589-627 | in every run the leaves rebuilt for a live batch are the sealed ones without the audit-head leaf, so all of them exactly when no head was committed |
| AnchorRuns.PassAdvancesIff | core/src/agent_action_anchor.rs:197-243 | a pass moves the highest end forward exactly when a receipt lies above it and fewer than the cap lie between watermark and end |
| AnchorRuns.TieWitness | core/src/agent_action_anchor.rs:197-209 | for every cap and n, and any receipts of one second one more than two batches hold, a run whose last n passes seal the second batch while the last receipt stays uncovered |
| AnchorRuns.CrowdExists | core/src/agent_action_anchor.rs:59-59 | there are such receipts for every cap and second |
| AnchorRuns.LookupFindsIff | core/src/agent_action_anchor.rs:493-630 | in every run the looked-up row yields the receipt exactly unless it splits the receipt's second; a live row then rebuilds to what was sealed |
| AnchorRuns.LookupMissWitness | core/src/agent_action_anchor.rs:493-630 | a run with a covered receipt that the lookup misses, for every cap |
| AnchorRuns.LateReceiptNeverSelected | core/src/agent_action_anchor.rs:197-243 | a receipt at or below a submitted end is not selected by any pass that reads its watermark later, unless it is of the same second and another submitted batch of that second ends below it |
| AnchorRuns.PendingGapWitness | core/src/agent_action_anchor.rs:190-421 | for any three receipts in order, a run that leaves the middle one below the watermark, uncovered and out of reach |
| AnchorRuns.SameSecondGap | core/src/agent_action_anchor.rs:190-421 | that run for three receipts of one second |
| AnchorRuns.FailedPassRecovers | core/src/agent_action_anchor.rs:190-421 | in that run, if the batch fails, the next pass covers the receipt |
| AnchorRuns.PassSteps | core/src/agent_action_anchor.rs:190-421 | a pass by itself is made of the steps of a run |
| AnchorRuns.Worker.AnchorPending | core/src/agent_action_anchor.rs:190-421 | one pass seals the selection with its leaves and resolves it to the providers' status, by steps of a run; an empty selection does nothing |
| BudgetTracker.Tracker.Record | agentic/src/budget-tracker.ts:102-112 | adds to the total, appends to the history capped at 1024 and to the pending list |
| BudgetTracker.Tracker.RecentCalls | agentic/src/budget-tracker.ts:128-142 | drops exactly the entries before the first fresh one and returns the rest |
| BudgetTracker.Tracker.FlushStart | agentic/src/budget-tracker.ts:149-178 | takes a snapshot unless a flush is in flight or nothing is pending |
| BudgetTracker.Tracker.FlushAnswer | agentic/src/budget-tracker.ts:158-177 | a success removes as many pending records as were sent, a failure none |
| BudgetTracker.FlushSendsAll | agentic/src/budget-tracker.ts:149-164 | a flush that starts sends everything pending |
| BudgetTracker.FlushLeavesTheRest | agentic/src/budget-tracker.ts:158-178 | whatever is recorded while it is under way, a success leaves exactly that pending and a failure leaves all |
| BudgetTracker.FlushConservation | agentic/src/budget-tracker.ts:102-184 | in every interleaving what was delivered followed by what is pending is what was recorded, in order; a snapshot in flight is a prefix of pending; the total is the sum recorded |
| Evaluator.Evaluate | agentic/src/evaluator.ts:56-165 | allows exactly when all seven checks pass, and a denial names the first that fails |
| Evaluator.PermittedIff | agentic/src/evaluator.ts:56-165 | allowed exactly when the tool is listed, the total with this amount is within budget, the tag is on no deny list and on the allow list if there is one, the calls of the last 60 seconds are below the limit, the time is in the window, every role has its signatures and the depth is within bounds |
| Evaluator.DeniedTagRefused | agentic/src/evaluator.ts:88-100 | a classification on the deny list is refused whatever the letter case |
| Evaluator.CheckOrder | agentic/src/evaluator.ts:49-55 | the order of the seven checks |
| Evaluator.CountCalls | agentic/src/evaluator.ts:112-118 | counts the timestamps in the 60 seconds that end now |
| Evaluator.CallsAreRecent | agentic/src/evaluator.ts:112-118 | the count is the number of positions whose timestamp lies in the 60 seconds up to now |
| Evaluator.FindMissing | agentic/src/evaluator.ts:140-151 | finds a role with too few signatures exactly when there is one |
| Evaluator.WindowIsCyclicInterval | agentic/src/evaluator.ts:195-200 | comparing `HH:MM` text is membership in the cyclic interval of minutes, across midnight too |
| ToolProxy.Wrapped | agentic/src/tool-proxy.ts:85-122 | a call is refused exactly when a check fails on the pruned history; only an allowed call with an amount whose tool returned is recorded |
| ToolProxy.RunsIff | agentic/src/tool-proxy.ts:85-110 | the facts a call is judged on: the total, the recorded calls of the last minute in seconds, its own timestamp or else its start |
| ToolProxy.RunKept | agentic/src/tool-proxy.ts:85-122 | in every orderly run the history still holds every record the rate check can need, and records `limit` apart are 60 seconds apart |
| ToolProxy.RateBound | agentic/src/tool-proxy.ts:85-122 | for a limit up to 1024, sequential calls, a clock that does not go back and the proxy's own timestamps, any 60 consecutive seconds hold at most that many recorded calls |
| ToolProxy.EnforcedIff | agentic/src/budget-tracker.ts:106-110 | the limit is enforced in all orderly runs exactly when it is at most 1024 |
| ToolProxy.BudgetBound | agentic/src/tool-proxy.ts:85-122 | the total never exceeds a non-negative cap, whatever the amounts |
| ToolProxy.AboveCapNeverRefuses | agentic/src/budget-tracker.ts:106-110 | with a limit above 1024 the rate check passes in every state of every run |
| ToolProxy.BoundedIff | agentic/src/tool-proxy.ts:85-122 | a minute of sequential calls holds at most the limit of calls whose tool ran, in all runs of calls of a kind and under all policies, exactly when the limit is zero or the calls carry an amount, return and keep the proxy's timestamp and the limit is at most 1024 |
| ToolProxy.UncountedCallsRun | agentic/src/tool-proxy.ts:112-121 | in every other case a run with one call more than the limit in one millisecond |
| ToolProxy.UnrecordedNothingCounts | agentic/src/tool-proxy.ts:117-121 | any number of calls without an amount or with a tool that throws leaves the ledger empty |
| ReplayWindow.SkewMs | core/src/agent.rs:2062-2068 | the configured skew, raised to one second or lowered to ten minutes when outside; one minute when none is configured |
| ReplayWindow.CallAdmittedIff | core/src/agent.rs:2180-2363 | a call is admitted exactly when its timestamp is within the skew of now, it is signed, its nonce has 1 to 128 bytes and the agent has not used it |
| ReplayWindow.DpopAdmittedIff | core/src/dpop.rs:267-319 | the same for a DPoP proof, its second, an identifier of 1 to 120 bytes and the prefixed key |
| ReplayWindow.StoredExpiry | core/src/agent.rs:2352-2352 | the stored expiry is the second of the timestamp, the skew in seconds and a minute |
| ReplayWindow.RetentionMargin | core/src/agent.rs:2180-2352 | while a timestamp is acceptable the stored expiry is at least 59 seconds ahead, 60 for a DPoP proof |
| ReplayWindow.RetentionMarginTight | core/src/agent.rs:2180-2352 | 59 seconds are reached |
| ReplayWindow.NonceTable.ConsumeCallNonce | core/src/ajwt_support.rs:125-159 | empty and over-long nonces are refused; a new key is inserted; a present one is refused and nothing changes |
| ReplayWindow.NonceTable.VerifyCallSig | core/src/agent.rs:2180-2366 | accepts exactly a fresh, signed, well-formed call with an unused nonce, and stores its expiry; each refusal names the first check that fails |
| ReplayWindow.NonceTable.VerifyDpop | core/src/dpop.rs:384-415 | the same for DPoP proofs (sections 4.3 and 11.1 of RFC 9449), whose identifier is stored under a prefix |
| ReplayWindow.NonceTable.Prune | core/src/repository.rs:480-501 | removes exactly the rows that expired before now |
| ReplayWindow.ReuseNeedsLaterStamp | core/src/agent.rs:2347-2363 | in every run a key is accepted again only after a sweep past the first expiry, and, if the request reached the table within 59 clock seconds of its check, only for a timestamp in a later second |
| ReplayWindow.AtMostOnce | core/src/agent.rs:2347-2363 | in every run a call signature or DPoP proof is not accepted again by a request that reaches the table within 59 clock seconds of its check |
| ReplayWindow.OnceWithinIff | core/src/agent.rs:2180-2363 | at most once holds in all runs and for all skews exactly for requests up to 59 clock seconds late |
| ReplayWindow.OnceWithinMsIff | core/src/agent.rs:2180-2363 | in milliseconds, exactly up to 59001 |
| ReplayWindow.LateReplay | core/src/agent.rs:2180-2363 | runs that accept a late request twice |
| ReplayWindow.ReuseIff | core/src/agent.rs:2347-2363 | an otherwise acceptable proof with a used key is accepted exactly when a sweep passed the old expiry |
| ReplayWindow.NonceReusedWitness | core/src/agent.rs:2347-2363 | a run in which one nonce is accepted with two timestamps |
| ReplayWindow.KeysDisjointIff | core/src/dpop.rs:302-319 | no acceptable DPoP proof of the agent shares the key of a call nonce exactly unless the nonce is the prefix followed by 1 to 120 bytes |
| ReplayWindow.PrefixCollisionWitness | core/src/dpop.rs:302-319 | for every such nonce a run in which the accepted call makes an acceptable DPoP proof a replay |
| Delegation.ScopeSources | core/src/ajwt_support.rs:17-41 | which of the three places of an intent the scopes come from |
| Delegation.ScopeIff | core/src/ajwt_support.rs:17-41 | a scope is one listed under `scope`, or without such a list under `constraints.scope`, or without either the non-empty `action` |
| Delegation.AssertChildScopesSubsetOfParent | core/src/ajwt_support.rs:44-71 | passes exactly when both sides name scopes and the child's are among the parent's; each error names its cause |
| Delegation.Registry.CheckParent | core/src/agent.rs:1158-1196 | a child is placed exactly under an active parent of the same tenant and user with wider scopes and room below it, one level deeper; each refusal names the first check that fails |
| Delegation.Registry.Insert | core/src/agent.rs:1268-1300 | inserts the placed agent; a taken id is an error |
| Delegation.Registry.Revoke | core/src/agent.rs:1577-1592 | sets the flag on exactly the row with that id, user and tenant |
| Delegation.RowsStay | core/src/agent.rs:1268-1592 | rows are never removed and change at most from active to revoked |
| Delegation.RunForest | core/src/agent.rs:1158-1300 | every run keeps every agent a root or one level below a parent with its user, tenant and wider scopes, even when other requests come between check and insert |
| Delegation.ParentWasActive | core/src/agent.rs:1158-1196 | in every run the parent of a registered child was active and above the last level in the table it was checked against |
| Delegation.ChainReaches | core/src/agent.rs:1158-1196 | chains of every length up to six agents exist, so the depth bound is reached |
| Delegation.DelegationForest | core/src/agent.rs:1158-1300 | every agent reaches a root in exactly depth steps, at most five; no agent is its own ancestor; user and tenant are those of every ancestor and scopes lie within every ancestor's |
| ChecksumRotation.Database.PersistInputs | core/src/agent_checksum.rs:202-218 | stores version 1; a second insert is an error |
| ChecksumRotation.Database.Register | core/src/agent.rs:1268-1318 | writes the agent and its inputs; a taken id stops it |
| ChecksumRotation.Database.RotateInputs | core/src/agent_checksum.rs:221-296 | replaces the inputs, keeps the creation time, bumps the version, updates the agents table and appends one audit row with old and new checksum and inputs hash; an agent without inputs is an error and nothing is written |
| ChecksumRotation.RotationTrail | core/src/agent_checksum.rs:202-296 | in every run version is 1 plus the agent's audit rows, which link checksum and inputs hash from the registered to the current values, held in both tables |
| ConfigCanonical.MeaningKept | core/src/agent_checksum.rs:145-157 | canonicalization changes no value under any key at any depth |
| ConfigCanonical.CanonicalIsCanonical | core/src/agent_checksum.rs:145-157 | its result has strictly sorted keys at every level |
| Bytes.TextLessIff | core/src/agent_checksum.rs:145-157 | the order of keys is that of the first byte that differs, a prefix first |
| ConfigCanonical.CanonicalIff | core/src/agent_checksum.rs:145-157 | two configurations have the same canonical form exactly when they are equal up to the order of keys |
| CircuitBreaker.NormalizeShape | core/src/issuer_runtime.rs:57-59 | an address loses the white space at both ends and then the slashes at its end, and nothing else |
| CircuitBreaker.NormalizeIdempotentIff | core/src/issuer_runtime.rs:57-59 | normalizing again changes an address exactly when white space was left at its end |
| CircuitBreaker.NormalizeNotIdempotent | core/src/issuer_runtime.rs:57-59 | such an address |
| CircuitBreaker.TripsReachTheGateIff | core/src/issuer_runtime.rs:144-193 | a trip or success is booked on the gate that was read exactly when the address does not end in white space |
| CircuitBreaker.GateIsTally | core/src/issuer_runtime.rs:121-142 | in every run the counter is the trips since the last success modulo the threshold, and the gate is open from its last opening |
| CircuitBreaker.RefusedIff | core/src/issuer_runtime.rs:155-162 | a call is refused exactly within openSecs of the last trip that was a multiple of the threshold since the last success |
| CircuitBreaker.RefusalsEnd | core/src/issuer_runtime.rs:121-162 | refusals end within openSecs of the issuer's last trip |
| CircuitBreaker.IssuersIndependent | core/src/issuer_runtime.rs:121-142 | a gate is what its own issuer's events make it |
| CircuitBreaker.IssuerRuntime.RecordTripEvent | core/src/issuer_runtime.rs:121-134 | counts the trip and opens the gate at the threshold; a threshold of 0 does nothing |
| CircuitBreaker.IssuerRuntime.ResetTrips | core/src/issuer_runtime.rs:136-142 | a known gate's counter goes to 0, its opening stays |
| CircuitBreaker.IssuerRuntime.VerifyProof | core/src/issuer_runtime.rs:145-193 | the outcome and the one trip or success that is booked, for every reply |
| CircuitBreaker.AskedOutcomes | core/src/issuer_runtime.rs:145-193 | which reply gives which answer: a verdict only for a 2xx reply with JSON of an admitted issuer |
| CircuitBreaker.VerifiedOverrulesValid | core/src/issuer_runtime.rs:179-185 | a reply whose `verified` is present and not true never verifies, whatever `valid` says; without it, exactly when `valid` is true |
| CircuitBreaker.BookedIff | core/src/issuer_runtime.rs:163-192 | a trip is booked exactly for no reply, 429 and 500 or above, a success exactly for a JSON answer of class 2xx |
| CircuitBreaker.IssuerRuntime.VerifyProofFailover | core/src/issuer_runtime.rs:197-234 | the answer of an address before which all failed retryably, and which is definitive or the last |
| CircuitBreaker.FailoverTrue | core/src/issuer_runtime.rs:197-234 | the failover answers true only if an admitted issuer's reply says so |
| CircuitBreaker.BasesInOrder | core/src/issuer_runtime.rs:202-206 | addresses are tried in the configured order, the empty ones left out |
| CircuitBreaker.SettledUnique | core/src/issuer_runtime.rs:211-230 | there is only one such address, so this fixes answer and gates |
| CircuitBreaker.DefinitiveAnswers | core/src/issuer_runtime.rs:211-230 | an attempt ends the failover exactly when a reachable, admitted issuer replied without overload and, on success, with JSON |

## Left out

- Unforgeability, anonymity and collision resistance: hardness assumptions are not statements about this code.
- The internals of SHA-256, HMAC, HKDF, Ed25519, Ristretto, base64 and Merkle trees: libraries, here parameters.
- HTTP handlers, middleware, environment parsing, secrets, dashboards, SDK clients and deployment files: plumbing.
- SQL pools, schema, migrations and the Postgres layer: tables are sequences, sets and maps instead.
- Bitcoin and Solana submission: only the resulting status, as a free choice.
- The ring rules, usage ledger and intent policy modules: predicates that the action store is given.
- Interleaved reading of the chain head and inserting of a receipt: an append is one step, as the write lock of the server makes it.
- The cross-tenant view of administrators and version 1 leaves: lookups and rebuilds are modelled for a version 2 batch row in its own tenant.
- Usage reports, which keep their own keys in the nonce table: they add rows and remove none.
- Credentials issued to non-bank agents, which may replace an agent's row under an id derived from checksum, owner and second: the delegation registry is modelled for registrations and revocations.
- The assembly of random bytes in the sampler: a draw is any number below the next power of two.
- Floating-point rounding of USD amounts: reals.
- Overflow of 64-bit timestamps that are not near the server's clock, in the skew test of call signatures: integers are unbounded there.
- Single use of A-JWT identifiers, PoP challenges, workflow tracking and compliance tables: they would only add easier members of the same kind.
- The serialized text of a canonical configuration: the canonical form is compared as a value.
- ActionStore.Database.ValidateAgentAction: the intent, policy, token and membership checks are one given condition.
- AnchorRuns.Worker.AnchorPending: the watermark and the selection are given as results of their queries.
- Delegation.Registry.Insert: the checks of a registration other than the parent's are not part of the model.
- ReplayWindow.NonceTable.VerifyCallSig: header, agent, digest and audience checks and the signature are one given condition.
- ReplayWindow.NonceTable.VerifyDpop: method, address, host and token-hash checks and the signature are one given condition.
