/**
 The per-issuer circuit breakers around the proof verifiers, and the failover over
 several issuer addresses.  The clock and the issuers' replies are arguments.
 */
module CircuitBreaker {

  import opened Bytes
  import NumberTheory

  // ---------- issuer addresses ----------

  /** Unicode White_Space. */
  predicate White(c: char)
  {
    var n := c as int;
    || 9 <= n <= 13 || n == 0x20 || n == 0x85 || n == 0xA0 || n == 0x1680 || 0x2000 <= n <= 0x200A
    || n == 0x2028 || n == 0x2029 || n == 0x202F || n == 0x205F || n == 0x3000
  }

  predicate Slash(c: char)
  {
    c == '/'
  }

  function TrimEnd(s: string, p: char -> bool): string
  {
    if s != [] && p(s[|s| - 1]) then TrimEnd(s[..|s| - 1], p) else s
  }

  function TrimStart(s: string, p: char -> bool): string
  {
    if s != [] && p(s[0]) then TrimStart(s[1..], p) else s
  }

  function Normalize(url: string): string
  {
    TrimEnd(TrimEnd(TrimStart(url, White), White), Slash)
  }

  /** Exactly the characters at the end that satisfy p are removed. */
  lemma {:induction false} TrimEndSpec(s: string, p: char -> bool)
    ensures TrimEnd(s, p) <= s
    ensures TrimEnd(s, p) != [] ==> !p(TrimEnd(s, p)[|TrimEnd(s, p)| - 1])
    ensures forall i :: |TrimEnd(s, p)| <= i < |s| ==> p(s[i])
  {
    if s != [] && p(s[|s| - 1]) {
      TrimEndSpec(s[..|s| - 1], p);
    }
  }

  lemma {:induction false} TrimStartSpec(s: string, p: char -> bool)
    ensures TrimStart(s, p) != [] ==> !p(TrimStart(s, p)[0])
    ensures |TrimStart(s, p)| <= |s| && s[|s| - |TrimStart(s, p)|..] == TrimStart(s, p)
    ensures forall i :: 0 <= i < |s| - |TrimStart(s, p)| ==> p(s[i])
  {
    if s != [] && p(s[0]) {
      TrimStartSpec(s[1..], p);
    }
  }

  predicate All(s: string, p: char -> bool)
  {
    forall i :: 0 <= i < |s| ==> p(s[i])
  }

  lemma TrimEndSplit(s: string, p: char -> bool) returns (rest: string)
    ensures s == TrimEnd(s, p) + rest && All(rest, p)
  {
    TrimEndSpec(s, p);
    rest := s[|TrimEnd(s, p)|..];
  }

  lemma TrimStartSplit(s: string, p: char -> bool) returns (rest: string)
    ensures s == rest + TrimStart(s, p) && All(rest, p)
  {
    TrimStartSpec(s, p);
    rest := s[..|s| - |TrimStart(s, p)|];
  }

  function Trimmed(url: string): string
  {
    TrimEnd(TrimStart(url, White), White)
  }

  lemma TrimmedEdges(url: string)
    ensures var t := Trimmed(url); t == [] || (!White(t[0]) && !White(t[|t| - 1]))
  {
    TrimStartSpec(url, White);
    TrimEndSpec(TrimStart(url, White), White);
  }

  /** The address without the white space around it and then without the slashes at its end, and no more. */
  lemma NormalizeShape(url: string) returns (before: string, slashes: string, after: string)
    ensures url == before + Normalize(url) + slashes + after
    ensures All(before, White) && All(slashes, Slash) && All(after, White)
    ensures var core := Normalize(url) + slashes; core == [] || (!White(core[0]) && !White(core[|core| - 1]))
    ensures var base := Normalize(url); base == [] || base[|base| - 1] != '/'
  {
    before := TrimStartSplit(url, White);
    after := TrimEndSplit(TrimStart(url, White), White);
    slashes := TrimEndSplit(Trimmed(url), Slash);
    TrimmedEdges(url);
    TrimEndSpec(Trimmed(url), Slash);
    assert Trimmed(url) == Normalize(url) + slashes;
    Concat(before, Normalize(url), slashes, after);
  }

  lemma Concat(a: string, b: string, c: string, d: string)
    ensures a + ((b + c) + d) == a + b + c + d
  {
  }

  /** A second normalization changes an address exactly when the first left white space at its end. */
  lemma NormalizeIdempotentIff(url: string)
    ensures var base := Normalize(url);
            Normalize(base) == base <==> base == [] || !White(base[|base| - 1])
  {
    var started := TrimStart(url, White);
    var trimmed := TrimEnd(started, White);
    var base := Normalize(url);
    TrimStartSpec(url, White);
    TrimEndSpec(started, White);
    TrimEndSpec(trimmed, Slash);
    if base != [] {
      assert base[0] == trimmed[0] == started[0];
      assert TrimStart(base, White) == base;
      TrimEndSpec(base, White);
      TrimEndSpec(TrimEnd(base, White), Slash);
    }
  }

  /** An address where it does: white space before the trailing slash. */
  lemma NormalizeNotIdempotent()
    ensures Normalize("a /") == "a " && Normalize("a ") == "a"
  {
    assert TrimStart("a /", White) == "a /" && TrimEnd("a /", White) == "a /";
    assert "a /"[..2] == "a " && TrimEnd("a /", Slash) == TrimEnd("a ", Slash);
    assert "a "[..1] == "a" && TrimEnd("a ", White) == TrimEnd("a", White);
  }

  // ---------- the gates ----------

  datatype Gate = Gate(trips: nat, openUntil: int)

  type Gates = map<string, Gate>

  const U32_MAX := 0xFFFF_FFFF

  datatype Config = Config(threshold: nat, openSecs: int)

  /** What the environment parser guarantees. */
  predicate Valid(cfg: Config)
  {
    cfg.threshold <= 1000 && 5 <= cfg.openSecs <= 3600
  }

  function GateOf(g: Gates, key: string): Gate
  {
    if key in g then g[key] else Gate(0, 0)
  }

  function Tripped(cfg: Config, gate: Gate, now: int): Gate
  {
    var trips := if gate.trips < U32_MAX then gate.trips + 1 else gate.trips;
    if trips >= cfg.threshold then Gate(0, now + cfg.openSecs) else Gate(trips, gate.openUntil)
  }

  datatype Event = Trip(key: string, now: int) | Reset(key: string)

  function After(cfg: Config, g: Gates, e: Event): Gates
  {
    match e
    case Trip(key, now) => if cfg.threshold == 0 then g else g[key := Tripped(cfg, GateOf(g, key), now)]
    case Reset(key) => if key in g then g[key := g[key].(trips := 0)] else g
  }

  predicate Refuses(cfg: Config, g: Gates, key: string, now: int)
  {
    cfg.threshold > 0 && now < GateOf(g, key).openUntil
  }

  // ---------- runs of trips and successes ----------

  /** The gates after the first k events. */
  function GatesAt(cfg: Config, events: seq<Event>, k: nat): Gates
    requires k <= |events|
  {
    if k == 0 then map[] else After(cfg, GatesAt(cfg, events, k - 1), events[k - 1])
  }

  /** Among the first k events, the trips of an issuer since its last success. */
  function TripsSinceReset(events: seq<Event>, key: string, k: nat): nat
    requires k <= |events|
  {
    if k == 0 then 0
    else
      var e, before := events[k - 1], TripsSinceReset(events, key, k - 1);
      if e.key != key then before else if e.Reset? then 0 else before + 1
  }

  /** Event k is a trip that opens the gate: the threshold-th, or a multiple, since the last success. */
  predicate Opening(cfg: Config, events: seq<Event>, key: string, k: nat)
    requires k < |events|
  {
    && cfg.threshold > 0 && events[k].Trip? && events[k].key == key
    && TripsSinceReset(events, key, k + 1) % cfg.threshold == 0
  }

  /** When the gate opened last among the first k events. */
  function LastOpening(cfg: Config, events: seq<Event>, key: string, k: nat): (opening: Option<int>)
    requires k <= |events|
    ensures opening.Some? ==> exists j :: 0 <= j < k && Opening(cfg, events, key, j) && opening.value == events[j].now
  {
    if k == 0 then None
    else if Opening(cfg, events, key, k - 1) then Some(events[k - 1].now)
    else LastOpening(cfg, events, key, k - 1)
  }

  lemma ModStep(n: nat, m: nat)
    requires m > 0
    ensures (n + 1) % m == if n % m + 1 == m then 0 else n % m + 1
  {
    var q, r := n / m, n % m;
    assert n == m * q + r;
    if r + 1 == m {
      assert m * (q + 1) == m * q + m;
      NumberTheory.DivModUnique(n + 1, q + 1, 0, m);
    } else {
      NumberTheory.DivModUnique(n + 1, q, r + 1, m);
    }
  }

  /** A trip advances the counter modulo the threshold and opens the gate on every multiple. */
  lemma TripStep(cfg: Config, gate: Gate, n: nat, now: int)
    requires Valid(cfg) && cfg.threshold > 0 && gate.trips == n % cfg.threshold
    ensures Tripped(cfg, gate, now).trips == (n + 1) % cfg.threshold
    ensures Tripped(cfg, gate, now).openUntil
            == if (n + 1) % cfg.threshold == 0 then now + cfg.openSecs else gate.openUntil
  {
    ModStep(n, cfg.threshold);
  }

  /** What one event does to one gate. */
  lemma GateStep(cfg: Config, g: Gates, e: Event, key: string)
    requires cfg.threshold > 0
    ensures e.key != key ==> GateOf(After(cfg, g, e), key) == GateOf(g, key)
    ensures e.key == key && e.Trip? ==> GateOf(After(cfg, g, e), key) == Tripped(cfg, GateOf(g, key), e.now)
    ensures e.key == key && e.Reset? ==> GateOf(After(cfg, g, e), key) == GateOf(g, key).(trips := 0)
  {
  }

  /** The counter is the trips since the last success modulo the threshold; the gate is open from its last opening. */
  lemma {:induction false} GateIsTally(cfg: Config, events: seq<Event>, key: string, k: nat)
    requires Valid(cfg) && cfg.threshold > 0 && k <= |events|
    ensures GateOf(GatesAt(cfg, events, k), key).trips
            == TripsSinceReset(events, key, k) % cfg.threshold < cfg.threshold
    ensures var opening := LastOpening(cfg, events, key, k);
            GateOf(GatesAt(cfg, events, k), key).openUntil
            == if opening.Some? then opening.value + cfg.openSecs else 0
  {
    if k > 0 {
      GateIsTally(cfg, events, key, k - 1);
      var g, e := GatesAt(cfg, events, k - 1), events[k - 1];
      GateStep(cfg, g, e, key);
      if e.Trip? && e.key == key {
        TripStep(cfg, GateOf(g, key), TripsSinceReset(events, key, k - 1), e.now);
      }
    }
    NumberTheory.DivModUnique(0, 0, 0, cfg.threshold);
  }

  /** A refusal means that a threshold-th trip of this very issuer opened the gate less than openSecs ago. */
  lemma RefusedIff(cfg: Config, events: seq<Event>, key: string, k: nat, now: int)
    requires Valid(cfg) && now >= 0 && k <= |events|
    ensures Refuses(cfg, GatesAt(cfg, events, k), key, now)
            <==> LastOpening(cfg, events, key, k).Some? && now < LastOpening(cfg, events, key, k).value + cfg.openSecs
  {
    if cfg.threshold > 0 {
      GateIsTally(cfg, events, key, k);
    }
  }

  /** On a clock that does not go back, refusals end within openSecs of the issuer's last trip. */
  lemma RefusalsEnd(cfg: Config, events: seq<Event>, key: string, k: nat, now: int, last: int)
    requires Valid(cfg) && now >= 0 && k <= |events|
    requires forall i :: 0 <= i < k && events[i].Trip? && events[i].key == key ==> events[i].now <= last
    ensures now >= last + cfg.openSecs ==> !Refuses(cfg, GatesAt(cfg, events, k), key, now)
  {
    RefusedIff(cfg, events, key, k, now);
  }

  /** Among the first k events, those of one issuer. */
  function OfIssuer(events: seq<Event>, key: string, k: nat): seq<Event>
    requires k <= |events|
  {
    if k == 0 then []
    else
      var before := OfIssuer(events, key, k - 1);
      if events[k - 1].key == key then before + [events[k - 1]] else before
  }

  lemma {:induction false} GatesOfPrefix(cfg: Config, events: seq<Event>, e: Event, k: nat)
    requires k <= |events|
    ensures GatesAt(cfg, events + [e], k) == GatesAt(cfg, events, k)
  {
    if k > 0 {
      GatesOfPrefix(cfg, events, e, k - 1);
    }
  }

  /** Issuers do not affect each other: a gate is what its own events alone make it. */
  lemma {:induction false} IssuersIndependent(cfg: Config, events: seq<Event>, key: string, k: nat)
    requires k <= |events|
    ensures var own := OfIssuer(events, key, k);
            GateOf(GatesAt(cfg, events, k), key) == GateOf(GatesAt(cfg, own, |own|), key)
  {
    if k > 0 {
      IssuersIndependent(cfg, events, key, k - 1);
      var before := OfIssuer(events, key, k - 1);
      GatesOfPrefix(cfg, before, events[k - 1], |before|);
    }
  }

  // ---------- asking one issuer ----------

  /** A JSON field: absent, present but not a boolean, or a boolean. */
  datatype Field = Absent | NotBool | Is(b: bool)

  datatype Body = NotJson | Fields(verified: Field, valid: Field)

  datatype Reply = NoReply | Reply(status: nat, body: Body)

  datatype Result = Ok(verified: bool) | CircuitOpen | Transport | Upstream(status: nat) | JsonParse

  /** `verified` decides when it is present at all, `valid` only when it is absent. */
  function Verdict(body: Body): bool
    requires body.Fields?
  {
    if body.verified != Absent then body.verified == Is(true) else body.valid == Is(true)
  }

  predicate Success(status: nat)
  {
    200 <= status < 300
  }

  predicate Overloaded(status: nat)
  {
    status == 429 || status >= 500
  }

  function Answer(reply: Reply): Result
  {
    match reply
    case NoReply => Transport
    case Reply(status, body) =>
      if Success(status) then (if body.NotJson? then JsonParse else Ok(Verdict(body))) else Upstream(status)
  }

  /** What a call meets: the clock at the gate, the reply, and the clock when it is accounted. */
  datatype Attempt = Attempt(now: int, reply: Reply, later: int)

  /** The address that is asked and whose gate is read. */
  function Asked(cfg: Config, g: Gates, url: string, a: Attempt): Result
  {
    var base := Normalize(url);
    if base == [] then Transport else if Refuses(cfg, g, base, a.now) then CircuitOpen else Answer(a.reply)
  }

  /** The trip or success that a call accounts, under the address normalized once more. */
  function Accounted(cfg: Config, g: Gates, url: string, a: Attempt): Option<Event>
  {
    var base := Normalize(url);
    if base == [] || Refuses(cfg, g, base, a.now) then None
    else
      match Answer(a.reply)
      case Ok(_) => Some(Reset(Normalize(base)))
      case Transport => Some(Trip(Normalize(base), a.later))
      case Upstream(status) => if Overloaded(status) then Some(Trip(Normalize(base), a.later)) else None
      case _ => None
  }

  /** The gate that is read is the gate that trips exactly when the address is normalized in one go. */
  lemma TripsReachTheGateIff(cfg: Config, g: Gates, url: string, a: Attempt)
    ensures var base, e := Normalize(url), Accounted(cfg, g, url, a);
            e.Some? ==> (e.value.key == base <==> !White(base[|base| - 1]))
  {
    NormalizeIdempotentIff(url);
  }

  function AfterCall(cfg: Config, g: Gates, url: string, a: Attempt): Gates
  {
    var e := Accounted(cfg, g, url, a);
    if e.Some? then After(cfg, g, e.value) else g
  }

  class IssuerRuntime {
    const cfg: Config
    var gates: Gates

    constructor (cfg: Config)
      ensures this.cfg == cfg && gates == map[]
    {
      this.cfg := cfg;
      gates := map[];
    }

    method RecordTripEvent(base: string, now: int)
      modifies this
      ensures gates == After(cfg, old(gates), Trip(Normalize(base), now))
    {
      if cfg.threshold == 0 {
        return;
      }
      var key := Normalize(base);
      var g := if key in gates then gates[key] else Gate(0, 0);
      if g.trips < U32_MAX {
        g := g.(trips := g.trips + 1);
      }
      if g.trips >= cfg.threshold {
        g := g.(openUntil := now + cfg.openSecs, trips := 0);
      }
      gates := gates[key := g];
    }

    method ResetTrips(base: string)
      modifies this
      ensures gates == After(cfg, old(gates), Reset(Normalize(base)))
    {
      var key := Normalize(base);
      if key in gates {
        gates := gates[key := gates[key].(trips := 0)];
      }
    }

    method VerifyProof(url: string, a: Attempt) returns (r: Result)
      modifies this
      ensures r == Asked(cfg, old(gates), url, a)
      ensures gates == AfterCall(cfg, old(gates), url, a)
    {
      var base := Normalize(url);
      if base == [] {
        return Transport;
      }
      var g := if base in gates then gates[base] else Gate(0, 0);
      if cfg.threshold > 0 && a.now < g.openUntil {
        return CircuitOpen;
      }
      if a.reply.NoReply? {
        RecordTripEvent(base, a.later);
        return Transport;
      }
      if 200 <= a.reply.status <= 299 {
        if a.reply.body.NotJson? {
          return JsonParse;
        }
        var field := a.reply.body.verified;
        if field == Absent {
          field := a.reply.body.valid;
        }
        r := Ok(field.Is? && field.b);
        ResetTrips(base);
        return;
      }
      if a.reply.status == 429 || a.reply.status >= 500 {
        RecordTripEvent(base, a.later);
      }
      return Upstream(a.reply.status);
    }

    /** Every address before the one that answers failed in a way that allows a retry. */
    method VerifyProofFailover(urls: seq<string>, attempts: nat -> Attempt) returns (r: Result)
      modifies this
      ensures Bases(urls) == [] ==> r == Transport && gates == old(gates)
      ensures Bases(urls) != [] ==>
                exists asked: nat :: Settled(cfg, old(gates), Bases(urls), attempts, asked, r, gates)
      ensures r == Ok(true) ==> exists k: nat :: k < |Bases(urls)| && SaysVerified(attempts(k).reply)
    {
      var bases := Bases(urls);
      if bases == [] {
        return Transport;
      }
      ghost var asked;
      r, asked := AskInOrder(bases, attempts);
      if r == Ok(true) {
        FailoverTrue(cfg, old(gates), bases, attempts, asked, r, gates);
      }
    }

    method AskInOrder(bases: seq<string>, attempts: nat -> Attempt) returns (r: Result, ghost asked: nat)
      requires bases != []
      modifies this
      ensures Settled(cfg, old(gates), bases, attempts, asked, r, gates)
    {
      asked, r := 0, Transport;
      for k := 0 to |bases|
        invariant gates == GatesTo(cfg, old(gates), bases, attempts, k)
        invariant AllRetryable(cfg, old(gates), bases, attempts, k)
        invariant k > 0 ==> r == ResultAt(cfg, old(gates), bases, attempts, k - 1) && asked == k - 1
      {
        asked := k;
        r := VerifyProof(bases[k], attempts(k));
        var retry := match r {
          case CircuitOpen => true
          case Transport => true
          case JsonParse => true
          case Upstream(status) => status == 429 || status >= 500
          case Ok(_) => false
        };
        if !retry {
          return;
        }
      }
    }
  }

  // ---------- failover ----------

  /** The configured addresses, normalized, without the empty ones. */
  function Bases(urls: seq<string>): seq<string>
  {
    if urls == [] then []
    else (if Normalize(urls[0]) == [] then [] else [Normalize(urls[0])]) + Bases(urls[1..])
  }

  predicate Retryable(r: Result)
  {
    r.CircuitOpen? || r.Transport? || r.JsonParse? || (r.Upstream? && Overloaded(r.status))
  }

  function GatesTo(cfg: Config, g: Gates, bases: seq<string>, attempts: nat -> Attempt, k: nat): Gates
    requires k <= |bases|
  {
    if k == 0 then g else AfterCall(cfg, GatesTo(cfg, g, bases, attempts, k - 1), bases[k - 1], attempts(k - 1))
  }

  /** What the k-th address answers, the earlier ones having been asked. */
  function ResultAt(cfg: Config, g: Gates, bases: seq<string>, attempts: nat -> Attempt, k: nat): Result
    requires k < |bases|
  {
    Asked(cfg, GatesTo(cfg, g, bases, attempts, k), bases[k], attempts(k))
  }

  ghost predicate AllRetryable(cfg: Config, g: Gates, bases: seq<string>, attempts: nat -> Attempt, k: nat)
    requires k <= |bases|
  {
    k > 0 ==> Retryable(ResultAt(cfg, g, bases, attempts, k - 1)) && AllRetryable(cfg, g, bases, attempts, k - 1)
  }

  lemma {:induction false} RetryableBefore(
    cfg: Config, g: Gates, bases: seq<string>, attempts: nat -> Attempt, i: nat, k: nat)
    requires k <= |bases| && AllRetryable(cfg, g, bases, attempts, k)
    ensures i < k ==> Retryable(ResultAt(cfg, g, bases, attempts, i))
  {
    if i + 1 < k {
      RetryableBefore(cfg, g, bases, attempts, i, k - 1);
    }
  }

  /** The answer is that of address k, after only retryable failures before it; it is definitive or k is the last. */
  ghost predicate Settled(
    cfg: Config, g: Gates, bases: seq<string>, attempts: nat -> Attempt, k: nat, r: Result, g': Gates)
  {
    && k < |bases| && AllRetryable(cfg, g, bases, attempts, k)
    && r == ResultAt(cfg, g, bases, attempts, k) && g' == GatesTo(cfg, g, bases, attempts, k + 1)
    && (Retryable(r) ==> k == |bases| - 1)
  }

  /** That fixes the answer and the gates: there is only one such address. */
  lemma SettledUnique(
    cfg: Config, g: Gates, bases: seq<string>, attempts: nat -> Attempt, k: nat, r: Result, g': Gates, l: nat,
    s: Result, h': Gates)
    requires Settled(cfg, g, bases, attempts, k, r, g') && Settled(cfg, g, bases, attempts, l, s, h')
    ensures k == l && r == s && g' == h'
  {
    RetryableBefore(cfg, g, bases, attempts, k, l);
    RetryableBefore(cfg, g, bases, attempts, l, k);
  }

  // ---------- what a reply means ----------

  /** The issuer is asked at all. */
  ghost predicate Admitted(cfg: Config, g: Gates, url: string, a: Attempt)
  {
    Normalize(url) != [] && !Refuses(cfg, g, Normalize(url), a.now)
  }

  /** A JSON answer of the success class says that the proof is verified; `valid` is read only without `verified`. */
  predicate SaysVerified(reply: Reply)
  {
    && reply.Reply? && 200 <= reply.status <= 299 && reply.body.Fields?
    && (reply.body.verified == Is(true) || (reply.body.verified == Absent && reply.body.valid == Is(true)))
  }

  /** Every outcome, from the gate and the reply. */
  lemma AskedOutcomes(cfg: Config, g: Gates, url: string, a: Attempt)
    ensures var r := Asked(cfg, g, url, a);
            && (r == Ok(true) <==> Admitted(cfg, g, url, a) && SaysVerified(a.reply))
            && (r == Ok(false) <==>
                  && Admitted(cfg, g, url, a) && a.reply.Reply? && 200 <= a.reply.status <= 299 && a.reply.body.Fields?
                  && !SaysVerified(a.reply))
            && (r == JsonParse <==>
                  Admitted(cfg, g, url, a) && a.reply.Reply? && 200 <= a.reply.status <= 299 && a.reply.body.NotJson?)
            && (r.Upstream? <==>
                  Admitted(cfg, g, url, a) && a.reply.Reply? && !(200 <= a.reply.status <= 299))
            && (r.Upstream? ==> r.status == a.reply.status)
            && (r == CircuitOpen <==> Normalize(url) != [] && Refuses(cfg, g, Normalize(url), a.now))
            && (r == Transport <==> Normalize(url) == [] || (Admitted(cfg, g, url, a) && a.reply.NoReply?))
  {
  }

  /** A reply whose `verified` is present and not true is never a success, whatever `valid` says. */
  lemma VerifiedOverrulesValid(cfg: Config, g: Gates, url: string, a: Attempt)
    requires a.reply.Reply? && a.reply.body.Fields? && a.reply.body.verified in [NotBool, Is(false)]
    ensures Asked(cfg, g, url, a) != Ok(true)
  {
    AskedOutcomes(cfg, g, url, a);
  }

  /** A trip is booked exactly for no reply, 429 and 500 or above; a success exactly for a JSON answer of class 2xx. */
  lemma BookedIff(cfg: Config, g: Gates, url: string, a: Attempt)
    ensures var key, e := Normalize(Normalize(url)), Accounted(cfg, g, url, a);
            && (e == Some(Trip(key, a.later)) <==>
                  Admitted(cfg, g, url, a) && (a.reply.NoReply? || a.reply.status == 429 || a.reply.status >= 500))
            && (e == Some(Reset(key)) <==>
                  Admitted(cfg, g, url, a) && a.reply.Reply? && 200 <= a.reply.status <= 299 && a.reply.body.Fields?)
            && (e == None || e == Some(Trip(key, a.later)) || e == Some(Reset(key)))
  {
  }

  /** Failover says verified only on the word of an admitted issuer. */
  lemma FailoverTrue(
    cfg: Config, g: Gates, bases: seq<string>, attempts: nat -> Attempt, k: nat, r: Result, g': Gates)
    requires Settled(cfg, g, bases, attempts, k, r, g') && r == Ok(true)
    ensures Admitted(cfg, GatesTo(cfg, g, bases, attempts, k), bases[k], attempts(k))
    ensures SaysVerified(attempts(k).reply)
  {
    AskedOutcomes(cfg, GatesTo(cfg, g, bases, attempts, k), bases[k], attempts(k));
  }

  /** The addresses are tried in the order they are configured, the empty ones left out. */
  lemma {:induction false} BasesInOrder(a: seq<string>, b: seq<string>)
    ensures Bases(a + b) == Bases(a) + Bases(b)
  {
    if a == [] {
      assert a + b == b;
    } else {
      BasesInOrder(a[1..], b);
      assert (a + b)[1..] == a[1..] + b && (a + b)[0] == a[0];
      var first := BasesStep(a, a + b);
      Rejoined(first, Bases(a[1..]), Bases(b));
    }
  }

  lemma BasesStep(a: seq<string>, b: seq<string>) returns (first: seq<string>)
    requires a != [] && b != [] && a[0] == b[0]
    ensures Bases(a) == first + Bases(a[1..]) && Bases(b) == first + Bases(b[1..])
  {
    first := if Normalize(a[0]) == [] then [] else [Normalize(a[0])];
  }

  lemma Rejoined(a: seq<string>, b: seq<string>, c: seq<string>)
    ensures a + (b + c) == a + b + c
  {
  }

  lemma BaseOfOne(url: string)
    ensures Bases([url]) == if Normalize(url) == [] then [] else [Normalize(url)]
  {
    assert [url][1..] == [];
  }

  /** A proof judged by any reachable issuer is never overruled: false answers are final as well. */
  lemma DefinitiveAnswers(cfg: Config, g: Gates, url: string, a: Attempt)
    ensures var r := Asked(cfg, g, url, a);
            !Retryable(r) <==>
              && Normalize(url) != [] && !Refuses(cfg, g, Normalize(url), a.now)
              && a.reply.Reply? && a.reply.status != 429 && a.reply.status < 500
              && (200 <= a.reply.status <= 299 ==> a.reply.body.Fields?)
  {
  }
}
