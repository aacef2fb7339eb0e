/**
 Replay protection of signed calls and DPoP proofs: a proof is accepted while its
 timestamp is within the clock skew, and its single-use key is kept in a nonce
 table until an expiry computed from that timestamp.
 */
module ReplayWindow {

  import opened Bytes

  /** A per-call signature (timestamp in milliseconds) or a DPoP proof (`iat` in seconds). */
  datatype Proof =
    | CallSig(agent: Text, nonce: Text, ts: int)
    | Dpop(agent: Text, jti: Text, iat: int)

  type Key = (Text, Text)

  const NONCE_MAX := 128
  const JTI_MAX := 120
  const JTI_PREFIX: Text := [100, 112, 111, 112, 58]

  /** The configured skew, clamped to one second .. ten minutes; 60 seconds when unset or unreadable. */
  function SkewMs(configured: Option<int>): (skew: int)
    ensures 1000 <= skew <= 600000
    ensures configured.Some? && 1000 <= configured.value <= 600000 ==> skew == configured.value
    ensures configured.Some? && configured.value < 1000 ==> skew == 1000
    ensures configured.Some? && configured.value > 600000 ==> skew == 600000
    ensures configured.None? ==> skew == 60000
  {
    var v := if configured.Some? then configured.value else 60000;
    if v < 1000 then 1000 else if v > 600000 then 600000 else v
  }

  /** Division of the source language: it truncates toward zero. */
  function TruncDiv(a: int, b: int): int
    requires b > 0
  {
    if a >= 0 then a / b else -((-a) / b)
  }

  function SaturatingMul(a: int, b: int): int
  {
    if a * b >= I64_LIMIT then I64_LIMIT - 1 else if a * b < -I64_LIMIT then -I64_LIMIT else a * b
  }

  function Abs(x: int): int
  {
    if x < 0 then -x else x
  }

  function StampMs(p: Proof): int
  {
    match p
    case CallSig(_, _, ts) => ts
    case Dpop(_, _, iat) => SaturatingMul(iat, 1000)
  }

  function StampSeconds(p: Proof): int
  {
    match p
    case CallSig(_, _, ts) => TruncDiv(ts, 1000)
    case Dpop(_, _, iat) => iat
  }

  predicate InSkew(p: Proof, nowMs: int, skew: int)
  {
    Abs(nowMs - StampMs(p)) <= skew
  }

  function KeyOf(p: Proof): Key
  {
    match p
    case CallSig(agent, nonce, _) => (agent, nonce)
    case Dpop(agent, jti, _) => (agent, JTI_PREFIX + jti)
  }

  function Expiry(p: Proof, skew: int): int
    requires skew >= 0
  {
    StampSeconds(p) + skew / 1000 + 60
  }

  predicate WellFormed(p: Proof)
  {
    match p
    case CallSig(_, nonce, _) => 0 < |nonce| <= NONCE_MAX
    case Dpop(_, jti, _) => 0 < |jti| <= JTI_MAX
  }

  // ---------- retention covers the acceptance window ----------

  /** The clock of a real server: from the epoch to well below the end of 64-bit milliseconds. */
  predicate Clock(nowMs: int)
  {
    0 <= nowMs < I64_LIMIT / 2
  }

  lemma StampsAgree(p: Proof, nowMs: int, skew: int)
    requires Clock(nowMs) && 1000 <= skew <= 600000 && InSkew(p, nowMs, skew)
    ensures p.Dpop? ==> StampMs(p) == p.iat * 1000
    ensures StampMs(p) - 1000 < StampSeconds(p) * 1000
    ensures StampMs(p) < StampSeconds(p) * 1000 + 1000
  {
  }

  /** While a proof is acceptable its stored expiry is at least 59 seconds ahead, 60 for a DPoP proof. */
  lemma RetentionMargin(p: Proof, nowMs: int, skew: int)
    requires Clock(nowMs) && 1000 <= skew <= 600000 && InSkew(p, nowMs, skew)
    ensures Expiry(p, skew) >= nowMs / 1000 + 59
    ensures p.Dpop? ==> Expiry(p, skew) >= nowMs / 1000 + 60
  {
    StampsAgree(p, nowMs, skew);
  }

  /** The 59 seconds are reached. */
  lemma RetentionMarginTight()
    ensures exists p: Proof, nowMs, skew ::
              Clock(nowMs) && 1000 <= skew <= 600000 && InSkew(p, nowMs, skew) && Expiry(p, skew) == nowMs / 1000 + 59
  {
    var p := CallSig([], [], 500);
    assert Clock(2000) && InSkew(p, 2000, 1500) && Expiry(p, 1500) == 2000 / 1000 + 59;
  }

  // ---------- the nonce table ----------

  type Table = map<Key, int>

  datatype Outcome = Accepted | Stale | BadSignature | Malformed | Replayed

  /** A proof gets through exactly when it is fresh, signed and well-formed and its key is not in the table. */
  ghost predicate Admits(rows: Table, p: Proof, signed: bool, nowMs: int, skew: int)
  {
    InSkew(p, nowMs, skew) && signed && WellFormed(p) && KeyOf(p) !in rows
  }

  /** Admission of a signed call, spelled out. */
  lemma CallAdmittedIff(
    rows: Table, agent: Text, nonce: Text, ts: int, signed: bool, nowMs: int, skew: int)
    ensures Admits(rows, CallSig(agent, nonce, ts), signed, nowMs, skew) <==>
              nowMs - skew <= ts <= nowMs + skew && signed && 1 <= |nonce| <= 128 && (agent, nonce) !in rows
  {
  }

  /** Admission of a DPoP proof; the time of an accepted proof is never a saturated one. */
  lemma DpopAdmittedIff(rows: Table, agent: Text, jti: Text, iat: int, signed: bool, nowMs: int, skew: int)
    requires Clock(nowMs) && 1000 <= skew <= 600000
    ensures Admits(rows, Dpop(agent, jti, iat), signed, nowMs, skew) <==>
              && nowMs - skew <= iat * 1000 <= nowMs + skew && signed && 1 <= |jti| <= 120
              && (agent, [100, 112, 111, 112, 58] + jti) !in rows
  {
  }

  /** The expiry that is stored: the second of the timestamp, truncated toward zero, the skew in seconds, a minute. */
  lemma StoredExpiry(agent: Text, key: Text, stamp: int, skew: int)
    requires skew >= 0
    ensures stamp >= 0 ==> Expiry(CallSig(agent, key, stamp), skew) == stamp / 1000 + skew / 1000 + 60
    ensures stamp < 0 ==> Expiry(CallSig(agent, key, stamp), skew) == -((-stamp) / 1000) + skew / 1000 + 60
    ensures Expiry(Dpop(agent, key, stamp), skew) == stamp + skew / 1000 + 60
  {
  }

  class NonceTable {
    var rows: Table

    constructor ()
      ensures rows == map[]
    {
      rows := map[];
    }

    /** Single use: the insert fails on a key that is present. */
    method ConsumeCallNonce(agent: Text, nonce: Text, exp: int) returns (outcome: Outcome)
      modifies this
      ensures outcome in {Accepted, Malformed, Replayed}
      ensures outcome == Malformed <==> nonce == [] || |nonce| > NONCE_MAX
      ensures outcome == Accepted ==> (agent, nonce) !in old(rows) && rows == old(rows)[(agent, nonce) := exp]
      ensures outcome == Replayed ==> (agent, nonce) in old(rows)
      ensures outcome != Accepted ==> rows == old(rows)
    {
      if nonce == [] || |nonce| > NONCE_MAX {
        return Malformed;
      }
      if (agent, nonce) in rows {
        return Replayed;
      }
      rows := rows[(agent, nonce) := exp];
      return Accepted;
    }

    method VerifyCallSig(agent: Text, nonce: Text, ts: int, signed: bool, nowMs: int, skew: int)
      returns (outcome: Outcome)
      requires skew >= 0
      modifies this
      ensures outcome == Accepted <==> Admits(old(rows), CallSig(agent, nonce, ts), signed, nowMs, skew)
      ensures var timely := nowMs - skew <= ts <= nowMs + skew;
              && (outcome == Stale <==> !timely)
              && (outcome == BadSignature <==> timely && !signed)
              && (outcome == Malformed <==> timely && signed && !(1 <= |nonce| <= 128))
      ensures rows == Submit(old(rows), CallSig(agent, nonce, ts), signed, nowMs, skew)
    {
      if Abs(nowMs - ts) > skew {
        return Stale;
      }
      if !signed {
        return BadSignature;
      }
      outcome := ConsumeCallNonce(agent, nonce, TruncDiv(ts, 1000) + skew / 1000 + 60);
    }

    method VerifyDpop(agent: Text, jti: Text, iat: int, signed: bool, nowMs: int, skew: int)
      returns (outcome: Outcome)
      requires skew >= 0
      modifies this
      ensures outcome == Accepted <==> Admits(old(rows), Dpop(agent, jti, iat), signed, nowMs, skew)
      ensures var fits := 1 <= |jti| <= 120;
              && (outcome == BadSignature <==> !signed)
              && (outcome == Malformed <==> signed && !fits)
              && (outcome == Stale <==> signed && fits && !InSkew(Dpop(agent, jti, iat), nowMs, skew))
      ensures rows == Submit(old(rows), Dpop(agent, jti, iat), signed, nowMs, skew)
    {
      if !signed {
        return BadSignature;
      }
      if jti == [] || |jti| > JTI_MAX {
        return Malformed;
      }
      if Abs(nowMs - SaturatingMul(iat, 1000)) > skew {
        return Stale;
      }
      outcome := ConsumeCallNonce(agent, JTI_PREFIX + jti, iat + skew / 1000 + 60);
    }

    /** The background sweep. */
    method Prune(now: int)
      modifies this
      ensures rows == Swept(old(rows), now)
    {
      rows := map k | k in rows && rows[k] >= now :: rows[k];
    }
  }

  ghost function Submit(rows: Table, p: Proof, signed: bool, nowMs: int, skew: int): Table
    requires skew >= 0
  {
    if Admits(rows, p, signed, nowMs, skew) then rows[KeyOf(p) := Expiry(p, skew)] else rows
  }

  ghost function Swept(rows: Table, now: int): Table
  {
    map k | k in rows && rows[k] >= now :: rows[k]
  }

  // ---------- runs ----------

  /**
   A request checks its timestamp at `checkedMs` and reaches the table at `atMs`; a
   sweep reads the clock in whole seconds.
   */
  datatype Event = Request(p: Proof, signed: bool, checkedMs: int, atMs: int) | Sweep(atMs: int)

  ghost function After(rows: Table, e: Event, skew: int): Table
    requires skew >= 0
  {
    match e
    case Request(p, signed, checkedMs, _) => Submit(rows, p, signed, checkedMs, skew)
    case Sweep(atMs) => Swept(rows, atMs / 1000)
  }

  /** A run in the order the events reach the table, on a clock that does not go back. */
  ghost predicate IsRun(events: seq<Event>, tables: seq<Table>, skew: int)
    requires skew >= 0
  {
    && |tables| == |events| + 1
    && (forall k :: 0 <= k < |events| ==> StepAt(events, tables, skew, k))
    && (forall i, j :: 0 <= i < j < |events| ==> events[i].atMs <= events[j].atMs)
  }

  ghost predicate StepAt(events: seq<Event>, tables: seq<Table>, skew: int, k: nat)
    requires skew >= 0 && k < |events| < |tables|
  {
    && tables[k + 1] == After(tables[k], events[k], skew)
    && Clock(events[k].atMs)
    && (events[k].Request? ==> 0 <= events[k].checkedMs <= events[k].atMs)
  }

  ghost predicate AcceptedAt(events: seq<Event>, tables: seq<Table>, skew: int, k: nat)
    requires skew >= 0 && IsRun(events, tables, skew)
  {
    && k < |events| && events[k].Request?
    && Admits(tables[k], events[k].p, events[k].signed, events[k].checkedMs, skew)
  }

  /** A row stays until a sweep after its expiry; nothing else changes it. */
  lemma {:induction false} RowKept(
    events: seq<Event>, tables: seq<Table>, skew: int, i: nat, j: nat, key: Key, exp: int)
    requires skew >= 0 && IsRun(events, tables, skew)
    requires i <= j < |tables| && key in tables[i] && tables[i][key] == exp
    ensures (key in tables[j] && tables[j][key] == exp) || SweptBetween(events, i, j, exp)
  {
    if i < j {
      RowKept(events, tables, skew, i, j - 1, key, exp);
      assert StepAt(events, tables, skew, j - 1);
    }
  }

  ghost predicate SweptBetween(events: seq<Event>, i: nat, j: nat, exp: int)
    requires j <= |events|
  {
    exists k :: i <= k < j && events[k].Sweep? && events[k].atMs / 1000 > exp
  }

  /**
   A key is accepted again only after a sweep past the first expiry, and then only
   for a proof stamped in a later second, if the second request reaches the table
   within 59 seconds of its timestamp check.
   */
  lemma ReuseNeedsLaterStamp(events: seq<Event>, tables: seq<Table>, skew: int, i: nat, j: nat)
    requires 1000 <= skew <= 600000 && IsRun(events, tables, skew) && i < j
    requires AcceptedAt(events, tables, skew, i) && AcceptedAt(events, tables, skew, j)
    requires KeyOf(events[i].p) == KeyOf(events[j].p)
    ensures SweptBetween(events, i + 1, j, Expiry(events[i].p, skew))
    ensures events[j].atMs / 1000 - events[j].checkedMs / 1000 <= 59
            ==> StampSeconds(events[i].p) < StampSeconds(events[j].p)
  {
    var exp := Expiry(events[i].p, skew);
    assert StepAt(events, tables, skew, i) && StepAt(events, tables, skew, j);
    RowKept(events, tables, skew, i + 1, j, KeyOf(events[i].p), exp);
    var k :| i + 1 <= k < j && events[k].Sweep? && events[k].atMs / 1000 > exp;
    StampsAgree(events[j].p, events[j].checkedMs, skew);
    assert events[k].atMs <= events[j].atMs;
  }

  /** The same proof is accepted at most once, if the second request reaches the table within 59 clock seconds. */
  lemma AtMostOnce(events: seq<Event>, tables: seq<Table>, skew: int, i: nat, j: nat)
    requires 1000 <= skew <= 600000 && IsRun(events, tables, skew) && i < j
    requires AcceptedAt(events, tables, skew, i) && j < |events| && events[j].Request?
    requires events[i].p == events[j].p
    requires events[j].atMs / 1000 - events[j].checkedMs / 1000 <= 59
    ensures !AcceptedAt(events, tables, skew, j)
  {
    if AcceptedAt(events, tables, skew, j) {
      ReuseNeedsLaterStamp(events, tables, skew, i, j);
    }
  }

  // ---------- how late a request may reach the table ----------

  /** In this run the same proof is accepted at i and again at j. */
  ghost predicate AcceptedTwice(events: seq<Event>, tables: seq<Table>, skew: int, i: nat, j: nat)
    requires skew >= 0
  {
    && IsRun(events, tables, skew) && i < j
    && AcceptedAt(events, tables, skew, i) && AcceptedAt(events, tables, skew, j)
    && events[i].p == events[j].p
  }

  /** In all runs under all skews no proof is accepted twice by requests at most d clock seconds late. */
  ghost predicate OnceWithin(d: int)
  {
    forall events: seq<Event>, tables: seq<Table>, skew, i: nat, j: nat ::
      1000 <= skew <= 600000 && AcceptedTwice(events, tables, skew, i, j) ==>
        events[j].atMs / 1000 - events[j].checkedMs / 1000 > d
  }

  /** The same with the delay in milliseconds. */
  ghost predicate OnceWithinMs(d: int)
  {
    forall events: seq<Event>, tables: seq<Table>, skew, i: nat, j: nat ::
      1000 <= skew <= 600000 && AcceptedTwice(events, tables, skew, i, j) ==>
        events[j].atMs - events[j].checkedMs > d
  }

  /** Accepting a proof twice takes a sweep past its expiry before the second request reaches the table. */
  lemma TwiceIsLate(events: seq<Event>, tables: seq<Table>, skew: int, i: nat, j: nat)
    requires 1000 <= skew <= 600000 && AcceptedTwice(events, tables, skew, i, j)
    ensures events[j].atMs - events[j].checkedMs > 59001
  {
    ReuseNeedsLaterStamp(events, tables, skew, i, j);
    var exp := Expiry(events[i].p, skew);
    var k :| i + 1 <= k < j && events[k].Sweep? && events[k].atMs / 1000 > exp;
    assert events[k].atMs <= events[j].atMs;
    assert StepAt(events, tables, skew, j);
    StampsAgree(events[j].p, events[j].checkedMs, skew);
  }

  /** A call of second 0 is accepted, swept away in second 62, and accepted again by a request checked in second 2. */
  lemma LateReplay(ts: int, skew: int, checkedMs: int) returns (events: seq<Event>, tables: seq<Table>)
    requires 0 <= ts < 1000 && 1000 <= skew < 2000 && 2000 <= checkedMs <= ts + skew
    ensures AcceptedTwice(events, tables, skew, 0, 2) && |events| == 3
    ensures events[2].checkedMs == checkedMs && events[2].atMs == 62000
  {
    var p := CallSig([97], [110], ts);
    events := [Request(p, true, ts, ts), Sweep(62000), Request(p, true, checkedMs, 62000)];
    var rows: Table := map[KeyOf(p) := 61];
    tables := [map[], rows, map[], rows];
    assert Swept(rows, 62) == map[];
    assert StepAt(events, tables, skew, 0);
    assert StepAt(events, tables, skew, 1);
    assert StepAt(events, tables, skew, 2);
  }

  /** At most once is guaranteed exactly for requests that reach the table within 59 clock seconds of their check. */
  lemma OnceWithinIff(d: int)
    ensures OnceWithin(d) <==> d <= 59
  {
    if d <= 59 {
      forall events: seq<Event>, tables: seq<Table>, skew, i: nat, j: nat
        | 1000 <= skew <= 600000 && AcceptedTwice(events, tables, skew, i, j)
        ensures events[j].atMs / 1000 - events[j].checkedMs / 1000 > d
      {
        ReuseNeedsLaterStamp(events, tables, skew, i, j);
      }
    } else {
      var events, tables := LateReplay(500, 1500, 2000);
      assert events[2].atMs / 1000 - events[2].checkedMs / 1000 == 60;
    }
  }

  /** In milliseconds the bound is 59001. */
  lemma OnceWithinMsIff(d: int)
    ensures OnceWithinMs(d) <==> d <= 59001
  {
    if d <= 59001 {
      forall events: seq<Event>, tables: seq<Table>, skew, i: nat, j: nat
        | 1000 <= skew <= 600000 && AcceptedTwice(events, tables, skew, i, j)
        ensures events[j].atMs - events[j].checkedMs > d
      {
        TwiceIsLate(events, tables, skew, i, j);
      }
    } else {
      var events, tables := LateReplay(999, 1999, 2998);
      assert events[2].atMs - events[2].checkedMs == 59002;
    }
  }

  // ---------- when a key is free again ----------

  /** No other acceptance of the key in between: its row is there exactly until a sweep past the expiry. */
  lemma {:induction false} RowTracked(events: seq<Event>, tables: seq<Table>, skew: int, i: nat, j: nat)
    requires skew >= 0 && IsRun(events, tables, skew) && i < j < |tables|
    requires AcceptedAt(events, tables, skew, i)
    requires forall m :: i < m < j && AcceptedAt(events, tables, skew, m) ==> KeyOf(events[m].p) != KeyOf(events[i].p)
    ensures KeyOf(events[i].p) !in tables[j] <==> SweptBetween(events, i + 1, j, Expiry(events[i].p, skew))
    ensures KeyOf(events[i].p) in tables[j] ==> tables[j][KeyOf(events[i].p)] == Expiry(events[i].p, skew)
  {
    assert StepAt(events, tables, skew, j - 1);
    if i + 1 < j {
      RowTracked(events, tables, skew, i, j - 1);
      SweptStep(events, i + 1, j, Expiry(events[i].p, skew));
      assert events[j - 1].Request? && AcceptedAt(events, tables, skew, j - 1) ==>
               KeyOf(events[j - 1].p) != KeyOf(events[i].p);
    }
  }

  lemma SweptStep(events: seq<Event>, i: nat, j: nat, exp: int)
    requires i < j <= |events|
    ensures SweptBetween(events, i, j, exp)
            <==> SweptBetween(events, i, j - 1, exp) || (events[j - 1].Sweep? && events[j - 1].atMs / 1000 > exp)
  {
  }

  /** A fresh, signed, well-formed proof with a used key is accepted exactly when a sweep passed the old expiry. */
  lemma ReuseIff(events: seq<Event>, tables: seq<Table>, skew: int, i: nat, j: nat)
    requires skew >= 0 && IsRun(events, tables, skew) && i < j < |events|
    requires AcceptedAt(events, tables, skew, i)
    requires forall m :: i < m < j && AcceptedAt(events, tables, skew, m) ==> KeyOf(events[m].p) != KeyOf(events[i].p)
    requires events[j].Request? && KeyOf(events[j].p) == KeyOf(events[i].p)
    requires InSkew(events[j].p, events[j].checkedMs, skew) && events[j].signed && WellFormed(events[j].p)
    ensures AcceptedAt(events, tables, skew, j)
            <==> SweptBetween(events, i + 1, j, Expiry(events[i].p, skew))
  {
    RowTracked(events, tables, skew, i, j);
  }

  /** So a nonce alone is not single-use for ever: with a later timestamp it passes again after the sweep. */
  lemma NonceReusedWitness() returns (events: seq<Event>, tables: seq<Table>)
    ensures IsRun(events, tables, 60000) && |events| == 3
    ensures AcceptedAt(events, tables, 60000, 0) && AcceptedAt(events, tables, 60000, 2)
    ensures KeyOf(events[0].p) == KeyOf(events[2].p)
  {
    var p, q := CallSig([97], [110], 0), CallSig([97], [110], 121000);
    events := [Request(p, true, 0, 0), Sweep(121000), Request(q, true, 121000, 121000)];
    var rows: Table := map[KeyOf(p) := 120];
    tables := [map[], rows, map[], map[KeyOf(q) := 241]];
    assert Swept(rows, 121) == map[];
    assert StepAt(events, tables, 60000, 0);
    assert StepAt(events, tables, 60000, 1);
    assert StepAt(events, tables, 60000, 2);
  }

  // ---------- one table for two kinds of keys ----------

  /** No acceptable DPoP proof of the agent shares the key of a call nonce, whatever its identifier and time. */
  ghost predicate ClearOfDpop(agent: Text, nonce: Text)
  {
    forall jti, iat :: WellFormed(Dpop(agent, jti, iat)) ==> KeyOf(Dpop(agent, jti, iat)) != (agent, nonce)
  }

  /** That holds exactly unless the nonce is the prefix followed by an identifier of acceptable length. */
  lemma KeysDisjointIff(agent: Text, nonce: Text)
    ensures ClearOfDpop(agent, nonce)
            <==> !(JTI_PREFIX <= nonce && |JTI_PREFIX| < |nonce| <= |JTI_PREFIX| + JTI_MAX)
  {
    if JTI_PREFIX <= nonce && |JTI_PREFIX| < |nonce| <= |JTI_PREFIX| + JTI_MAX {
      var jti := nonce[|JTI_PREFIX|..];
      assert nonce == JTI_PREFIX + jti;
      assert WellFormed(Dpop(agent, jti, 0)) && KeyOf(Dpop(agent, jti, 0)) == (agent, nonce);
    }
  }

  /** For any such nonce: the accepted call makes a fresh, signed, well-formed DPoP proof a replay. */
  lemma PrefixCollisionWitness(agent: Text, jti: Text) returns (events: seq<Event>, tables: seq<Table>)
    requires 0 < |jti| <= JTI_MAX
    ensures IsRun(events, tables, 60000) && |events| == 2
    ensures events[0] == Request(CallSig(agent, JTI_PREFIX + jti, 0), true, 0, 0)
    ensures events[1] == Request(Dpop(agent, jti, 0), true, 0, 0)
    ensures AcceptedAt(events, tables, 60000, 0) && !AcceptedAt(events, tables, 60000, 1)
    ensures forall rows: Table :: KeyOf(events[1].p) !in rows ==> Admits(rows, events[1].p, true, 0, 60000)
  {
    var p, q := CallSig(agent, JTI_PREFIX + jti, 0), Dpop(agent, jti, 0);
    events := [Request(p, true, 0, 0), Request(q, true, 0, 0)];
    var rows: Table := map[KeyOf(p) := 120];
    tables := [map[], rows, rows];
    assert StepAt(events, tables, 60000, 0);
    assert StepAt(events, tables, 60000, 1);
  }
}
