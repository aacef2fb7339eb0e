/**
 The local policy evaluator of the agent SDK: seven checks in a fixed order, the
 first failing one decides.  Lower-casing is a parameter; amounts are reals.
 */
module Evaluator {

  import opened Bytes

  datatype DataScope = DataScope(deny: seq<string>, allow: seq<string>)
  datatype TimeWindow = TimeWindow(start: string, end: string)
  datatype Requirement = Requirement(role: string, threshold: int)

  datatype Binding = Binding(
    allowedTools: Option<seq<string>>, maxBudgetUsd: Option<real>, dataScope: Option<DataScope>,
    requestsPerMinute: Option<int>, timeWindow: Option<TimeWindow>, requiredSignatures: Option<seq<Requirement>>,
    maxDepth: Option<int>)

  datatype Action = Action(
    tool: string, amountUsd: Option<real>, dataClassification: Option<string>, signatures: seq<string>,
    delegationDepth: int)

  datatype Context = Context(spendTotalUsd: real, recent: seq<int>, nowEpoch: int, nowHhmm: string)

  datatype Check = Allowlist | Budget | ScopeCheck | RateLimit | WindowCheck | Signatures | DelegationDepth

  datatype Verdict = Allow | Deny(check: Check)

  const RATE_WINDOW_SECS := 60

  // ---------- the seven checks ----------

  function Amount(a: Action): real
  {
    if a.amountUsd.Some? then a.amountUsd.value else 0.0
  }

  predicate ScopeAllows(d: DataScope, classification: Option<string>, lower: string -> string)
  {
    classification.Some? ==>
      var tag := lower(classification.value);
      && (forall i :: 0 <= i < |d.deny| ==> lower(d.deny[i]) != tag)
      && (d.allow != [] ==> exists i :: 0 <= i < |d.allow| && lower(d.allow[i]) == tag)
  }

  /** The number of timestamps in the 60 seconds that end with `now`. */
  function CallsInWindow(ts: seq<int>, now: int): nat
  {
    if ts == [] then 0
    else
      CallsInWindow(ts[..|ts| - 1], now)
      + if now - RATE_WINDOW_SECS < ts[|ts| - 1] <= now then 1 else 0
  }

  predicate StringAtMost(a: string, b: string)
  {
    a == [] || (b != [] && (a[0] < b[0] || (a[0] == b[0] && StringAtMost(a[1..], b[1..]))))
  }

  predicate InWindow(w: TimeWindow, hhmm: string)
  {
    if StringAtMost(w.start, w.end) then StringAtMost(w.start, hhmm) && StringAtMost(hhmm, w.end)
    else StringAtMost(w.start, hhmm) || StringAtMost(hhmm, w.end)
  }

  function Occurrences(s: seq<string>, x: string): nat
  {
    if s == [] then 0 else Occurrences(s[..|s| - 1], x) + if s[|s| - 1] == x then 1 else 0
  }

  /** What check c demands; an absent entry of the policy demands nothing. */
  predicate Passes(b: Binding, a: Action, ctx: Context, lower: string -> string, c: Check)
  {
    match c
    case Allowlist => b.allowedTools.Some? ==> a.tool in b.allowedTools.value
    case Budget => b.maxBudgetUsd.Some? ==> ctx.spendTotalUsd + Amount(a) <= b.maxBudgetUsd.value
    case ScopeCheck => b.dataScope.Some? ==> ScopeAllows(b.dataScope.value, a.dataClassification, lower)
    case RateLimit => b.requestsPerMinute.Some? ==> CallsInWindow(ctx.recent, ctx.nowEpoch) < b.requestsPerMinute.value
    case WindowCheck => b.timeWindow.Some? ==> InWindow(b.timeWindow.value, ctx.nowHhmm)
    case Signatures => b.requiredSignatures.Some? ==>
      forall i :: 0 <= i < |b.requiredSignatures.value| ==>
        Occurrences(a.signatures, b.requiredSignatures.value[i].role) >= b.requiredSignatures.value[i].threshold
    case DelegationDepth => b.maxDepth.Some? ==> a.delegationDepth <= b.maxDepth.value
  }

  /** The position of a check in the evaluation order. */
  function Rank(c: Check): nat
  {
    match c
    case Allowlist => 0 case Budget => 1 case ScopeCheck => 2 case RateLimit => 3 case WindowCheck => 4
    case Signatures => 5 case DelegationDepth => 6
  }

  /** Every check passes. */
  ghost predicate Permitted(b: Binding, a: Action, ctx: Context, lower: string -> string)
  {
    forall c :: Passes(b, a, ctx, lower, c)
  }

  /** An action is allowed exactly when every check passes; a denial names the first that fails. */
  method Evaluate(b: Binding, a: Action, ctx: Context, lower: string -> string) returns (v: Verdict)
    ensures v == Allow <==> Permitted(b, a, ctx, lower)
    ensures v.Deny? ==> !Passes(b, a, ctx, lower, v.check)
                        && forall c :: Rank(c) < Rank(v.check) ==> Passes(b, a, ctx, lower, c)
  {
    if b.allowedTools.Some? && a.tool !in b.allowedTools.value {
      assert !Passes(b, a, ctx, lower, Allowlist);
      return Deny(Allowlist);
    }
    if b.maxBudgetUsd.Some? && ctx.spendTotalUsd + Amount(a) > b.maxBudgetUsd.value {
      assert !Passes(b, a, ctx, lower, Budget);
      return Deny(Budget);
    }
    if b.dataScope.Some? && !ScopeAllows(b.dataScope.value, a.dataClassification, lower) {
      assert !Passes(b, a, ctx, lower, ScopeCheck);
      return Deny(ScopeCheck);
    }
    if b.requestsPerMinute.Some? {
      var count := CountCalls(ctx.recent, ctx.nowEpoch);
      if count >= b.requestsPerMinute.value {
        assert !Passes(b, a, ctx, lower, RateLimit);
        return Deny(RateLimit);
      }
    }
    if b.timeWindow.Some? && !InWindow(b.timeWindow.value, ctx.nowHhmm) {
      assert !Passes(b, a, ctx, lower, WindowCheck);
      return Deny(WindowCheck);
    }
    if b.requiredSignatures.Some? {
      var missing := FindMissing(b.requiredSignatures.value, a.signatures);
      if missing {
        assert !Passes(b, a, ctx, lower, Signatures);
        return Deny(Signatures);
      }
    }
    if b.maxDepth.Some? && a.delegationDepth > b.maxDepth.value {
      assert !Passes(b, a, ctx, lower, DelegationDepth);
      return Deny(DelegationDepth);
    }
    forall c
      ensures Passes(b, a, ctx, lower, c)
    {
      match c
      case _ =>
    }
    return Allow;
  }

  /** The counting loop of the rate check. */
  method CountCalls(ts: seq<int>, now: int) returns (count: nat)
    ensures count == CallsInWindow(ts, now)
  {
    count := 0;
    var lower := now - RATE_WINDOW_SECS;
    for i := 0 to |ts|
      invariant count == CallsInWindow(ts[..i], now)
    {
      if ts[i] > lower && ts[i] <= now {
        count := count + 1;
      }
      assert ts[..i + 1][..i] == ts[..i];
    }
    assert ts[..|ts|] == ts;
  }

  /** The scanning loop of the signature check: whether some role has too few signatures. */
  method FindMissing(reqs: seq<Requirement>, signatures: seq<string>) returns (missing: bool)
    ensures missing <==> exists i :: 0 <= i < |reqs| && Occurrences(signatures, reqs[i].role) < reqs[i].threshold
  {
    for i := 0 to |reqs|
      invariant forall j :: 0 <= j < i ==> Occurrences(signatures, reqs[j].role) >= reqs[j].threshold
    {
      var got := 0;
      for k := 0 to |signatures|
        invariant got == Occurrences(signatures[..k], reqs[i].role)
      {
        if signatures[k] == reqs[i].role {
          got := got + 1;
        }
        assert signatures[..k + 1][..k] == signatures[..k];
      }
      assert signatures[..|signatures|] == signatures;
      if got < reqs[i].threshold {
        return true;
      }
    }
    return false;
  }

  // ---------- what is permitted ----------

  /** The calls of the last 60 seconds, as positions in the list. */
  ghost function Recent(ts: seq<int>, now: int): set<nat>
  {
    set i: nat | i < |ts| && now - 60 < ts[i] <= now
  }

  lemma {:induction false} CallsAreRecent(ts: seq<int>, now: int)
    ensures CallsInWindow(ts, now) == |Recent(ts, now)|
  {
    if ts == [] {
      assert Recent(ts, now) == {};
    } else {
      var n := |ts| - 1;
      CallsAreRecent(ts[..n], now);
      assert Recent(ts, now) == Recent(ts[..n], now) + if now - 60 < ts[n] <= now then {n} else {};
    }
  }

  lemma {:induction false} OccurrencesCount(s: seq<string>, x: string)
    ensures Occurrences(s, x) == multiset(s)[x]
  {
    if s != [] {
      OccurrencesCount(s[..|s| - 1], x);
      assert s == s[..|s| - 1] + [s[|s| - 1]];
    }
  }

  ghost function Lowered(tags: seq<string>, lower: string -> string): set<string>
  {
    set s | s in tags :: lower(s)
  }

  lemma ScopeSets(d: DataScope, tag: string, lower: string -> string)
    ensures ScopeAllows(d, Some(tag), lower)
            <==> lower(tag) !in Lowered(d.deny, lower) && (d.allow == [] || lower(tag) in Lowered(d.allow, lower))
  {
    if lower(tag) in Lowered(d.allow, lower) {
      var s :| s in d.allow && lower(s) == lower(tag);
      var i :| 0 <= i < |d.allow| && d.allow[i] == s;
    }
  }

  lemma EveryCheck(b: Binding, a: Action, ctx: Context, lower: string -> string)
    ensures Permitted(b, a, ctx, lower) <==>
              && Passes(b, a, ctx, lower, Allowlist) && Passes(b, a, ctx, lower, Budget)
              && Passes(b, a, ctx, lower, ScopeCheck) && Passes(b, a, ctx, lower, RateLimit)
              && Passes(b, a, ctx, lower, WindowCheck) && Passes(b, a, ctx, lower, Signatures)
              && Passes(b, a, ctx, lower, DelegationDepth)
  {
    if Passes(b, a, ctx, lower, Allowlist) && Passes(b, a, ctx, lower, Budget)
       && Passes(b, a, ctx, lower, ScopeCheck) && Passes(b, a, ctx, lower, RateLimit)
       && Passes(b, a, ctx, lower, WindowCheck) && Passes(b, a, ctx, lower, Signatures)
       && Passes(b, a, ctx, lower, DelegationDepth)
    {
      forall c: Check
        ensures Passes(b, a, ctx, lower, c)
      {
        match c
        case _ =>
      }
    }
  }

  /**
   Permission spelled out: the tool is listed, the spend stays within the cap, the tag is
   not denied and, if there is an allow list, on it, fewer calls than the limit in the
   last 60 seconds, the time in the window, enough signatures for each role, and the
   delegation no deeper than allowed; an absent rule demands nothing.
   */
  lemma PermittedIff(b: Binding, a: Action, ctx: Context, lower: string -> string)
    ensures Permitted(b, a, ctx, lower) <==>
              && (b.allowedTools.Some? ==> a.tool in b.allowedTools.value)
              && (b.maxBudgetUsd.Some? ==>
                    ctx.spendTotalUsd + (if a.amountUsd.Some? then a.amountUsd.value else 0.0) <= b.maxBudgetUsd.value)
              && (b.dataScope.Some? && a.dataClassification.Some? ==>
                    var d, tag := b.dataScope.value, lower(a.dataClassification.value);
                    tag !in Lowered(d.deny, lower) && (d.allow == [] || tag in Lowered(d.allow, lower)))
              && (b.requestsPerMinute.Some? ==> |Recent(ctx.recent, ctx.nowEpoch)| < b.requestsPerMinute.value)
              && (b.timeWindow.Some? ==> InWindow(b.timeWindow.value, ctx.nowHhmm))
              && (b.requiredSignatures.Some? ==>
                    forall r :: r in b.requiredSignatures.value ==> multiset(a.signatures)[r.role] >= r.threshold)
              && (b.maxDepth.Some? ==> a.delegationDepth <= b.maxDepth.value)
  {
    EveryCheck(b, a, ctx, lower);
    CallsAreRecent(ctx.recent, ctx.nowEpoch);
    if b.dataScope.Some? && a.dataClassification.Some? {
      ScopeSets(b.dataScope.value, a.dataClassification.value, lower);
    }
    if b.requiredSignatures.Some? {
      forall r | r in b.requiredSignatures.value
        ensures Occurrences(a.signatures, r.role) == multiset(a.signatures)[r.role]
      {
        OccurrencesCount(a.signatures, r.role);
      }
    }
  }

  /** A classification that is on the deny list in any case of letters is never permitted. */
  lemma DeniedTagRefused(b: Binding, a: Action, ctx: Context, lower: string -> string, entry: string)
    requires b.dataScope.Some? && a.dataClassification.Some? && entry in b.dataScope.value.deny
    requires lower(a.dataClassification.value) == lower(entry)
    ensures !Permitted(b, a, ctx, lower)
  {
    PermittedIff(b, a, ctx, lower);
  }

  /** The order of the checks. */
  lemma CheckOrder()
    ensures Rank(Allowlist) < Rank(Budget) < Rank(ScopeCheck) < Rank(RateLimit) < Rank(WindowCheck)
            < Rank(Signatures) < Rank(DelegationDepth)
  {
  }

  // ---------- the time window ----------

  /** Minutes after midnight as zero-padded `HH:MM`. */
  function Hhmm(minutes: nat): string
    requires minutes < 1440
  {
    var h, m := minutes / 60, minutes % 60;
    [Digit(h / 10), Digit(h % 10), ':', Digit(m / 10), Digit(m % 10)]
  }

  function Digit(d: nat): char
    requires d < 10
  {
    '0' + d as char
  }

  lemma DigitOrder(a: nat, b: nat)
    requires a < 10 && b < 10
    ensures Digit(a) < Digit(b) <==> a < b
    ensures Digit(a) == Digit(b) <==> a == b
  {
  }

  /** Text order looks at one character, then at the rest. */
  lemma AtMostFrom(s: string, t: string, k: nat)
    requires k < |s| == |t|
    ensures StringAtMost(s[k..], t[k..]) <==> s[k] < t[k] || (s[k] == t[k] && StringAtMost(s[k + 1..], t[k + 1..]))
  {
    assert s[k..][1..] == s[k + 1..] && t[k..][1..] == t[k + 1..];
  }

  /** Text order on `HH:MM` is the order of the minutes. */
  lemma HhmmOrder(a: nat, b: nat)
    requires a < 1440 && b < 1440
    ensures StringAtMost(Hhmm(a), Hhmm(b)) <==> a <= b
  {
    var s, t := Hhmm(a), Hhmm(b);
    assert s[0..] == s && t[0..] == t;
    AtMostFrom(s, t, 0);
    AtMostFrom(s, t, 1);
    AtMostFrom(s, t, 2);
    AtMostFrom(s, t, 3);
    AtMostFrom(s, t, 4);
    DigitOrder(a / 60 / 10, b / 60 / 10);
    DigitOrder(a / 60 % 10, b / 60 % 10);
    DigitOrder(a % 60 / 10, b % 60 / 10);
    DigitOrder(a % 60 % 10, b % 60 % 10);
  }

  lemma OnClock(d: int)
    requires -1440 < d < 1440
    ensures d % 1440 == if d < 0 then d + 1440 else d
  {
  }

  /** The window is the cyclic interval from start to end on the 24-hour clock, wrap-around included. */
  lemma WindowIsCyclicInterval(start: nat, end: nat, now: nat)
    requires start < 1440 && end < 1440 && now < 1440
    ensures InWindow(TimeWindow(Hhmm(start), Hhmm(end)), Hhmm(now))
            <==> (now - start) % 1440 <= (end - start) % 1440
  {
    HhmmOrder(start, end);
    HhmmOrder(start, now);
    HhmmOrder(now, end);
    OnClock(now - start);
    OnClock(end - start);
  }
}
