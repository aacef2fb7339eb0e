/**
 A tool bound to a local policy: every call is evaluated against the tracker's
 ledger first, and an allowed call that carries an amount is recorded after the
 tool returned.  The clock is read three times in one call: for the action's
 timestamp, for pruning the history and for the record.
 */
module ToolProxy {

  import opened Bytes
  import opened BudgetTracker
  import opened Evaluator

  const RATE_WINDOW_MS := 60000

  /**
   One call: the action after the classifier's fields were merged in, a timestamp
   the classifier may have put over the proxy's own, the three clock readings in
   milliseconds, the last when the tool has ended, and whether it returns or throws.
   */
  datatype Call = Call(
    action: Action, stamp: Option<int>, actionId: string, started: int, pruned: int, recorded: int, nowHhmm: string,
    completes: bool)

  function Seconds(ms: int): int
  {
    ms / 1000
  }

  function AllSeconds(ms: seq<int>): (s: seq<int>)
    ensures |s| == |ms| && forall i :: 0 <= i < |ms| ==> s[i] == Seconds(ms[i])
  {
    seq(|ms|, i requires 0 <= i < |ms| => Seconds(ms[i]))
  }

  function Now(c: Call): int
  {
    if c.stamp.Some? then c.stamp.value else Seconds(c.started)
  }

  function ContextOf(total: real, recent: seq<int>, c: Call): Context
  {
    Context(total, AllSeconds(recent), Now(c), c.nowHhmm)
  }

  /** The history the rate check of a call sees. */
  function Fresh(history: seq<int>, c: Call): seq<int>
  {
    history[Stale(history, c.pruned - RATE_WINDOW_MS)..]
  }

  /** Whether the tool runs. */
  ghost predicate Runs(b: Binding, lower: string -> string, l: Ledger, c: Call)
  {
    Permitted(b, c.action, ContextOf(l.totalUsd, Fresh(l.history, c), c), lower)
  }

  /** Whether the call reaches the tracker's `record`. */
  ghost predicate Records(b: Binding, lower: string -> string, l: Ledger, c: Call)
  {
    Runs(b, lower, l, c) && c.completes && c.action.amountUsd.Some?
  }

  /** Which calls are recorded, given the ledger they meet. */
  type Gate = (Ledger, Call) -> bool

  ghost function PolicyGate(b: Binding, lower: string -> string): Gate
  {
    (l, c) => Records(b, lower, l, c)
  }

  ghost function After(gate: Gate, l: Ledger, c: Call): Ledger
  {
    var l1 := Apply(l, Pruned(c.pruned - RATE_WINDOW_MS));
    if gate(l, c) then Apply(l1, Recorded(SpendRecord(Amount(c.action), c.actionId, c.recorded))) else l1
  }

  /** The call is refused, without running the tool, exactly when some check fails. */
  method Wrapped(b: Binding, lower: string -> string, tracker: Tracker, c: Call) returns (verdict: Verdict)
    modifies tracker
    ensures tracker.State() == After(PolicyGate(b, lower), old(tracker.State()), c)
    ensures verdict == Allow <==> Runs(b, lower, old(tracker.State()), c)
  {
    ghost var l := tracker.State();
    AfterPolicy(b, lower, l, c);
    var total := tracker.Total();
    var recent := tracker.RecentCalls(RATE_WINDOW_MS, c.pruned);
    assert recent == Fresh(l.history, c);
    verdict := Evaluate(b, c.action, ContextOf(total, recent, c), lower);
    if verdict == Allow && c.completes && c.action.amountUsd.Some? {
      assert Records(b, lower, l, c);
      tracker.Record(c.action.amountUsd.value, c.actionId, c.recorded);
    } else {
      assert !Records(b, lower, l, c);
    }
  }

  /** The facts a call is judged on: total so far, the calls of the last minute, its own stamp or else its start. */
  lemma RunsIff(b: Binding, lower: string -> string, l: Ledger, c: Call, facts: Context)
    requires facts.spendTotalUsd == l.totalUsd && facts.nowHhmm == c.nowHhmm
    requires facts.nowEpoch == if c.stamp.Some? then c.stamp.value else c.started / 1000
    requires var stale := Stale(l.history, c.pruned - 60000);
             && |facts.recent| == |l.history| - stale
             && forall i :: 0 <= i < |facts.recent| ==> facts.recent[i] == l.history[stale + i] / 1000
    ensures Runs(b, lower, l, c) <==> Permitted(b, c.action, facts, lower)
  {
    assert facts.recent == AllSeconds(Fresh(l.history, c));
  }

  lemma AfterPolicy(b: Binding, lower: string -> string, l: Ledger, c: Call)
    ensures var l1 := Apply(l, Pruned(c.pruned - RATE_WINDOW_MS));
            After(PolicyGate(b, lower), l, c)
            == if Records(b, lower, l, c)
               then Apply(l1, Recorded(SpendRecord(Amount(c.action), c.actionId, c.recorded))) else l1
  {
  }

  function HistoryStep(history: seq<int>, c: Call, records: bool): seq<int>
  {
    if records then Capped(Fresh(history, c) + [c.recorded]) else Fresh(history, c)
  }

  function LogStep(log: seq<int>, c: Call, records: bool): seq<int>
  {
    if records then log + [c.recorded] else log
  }

  // ---------- runs ----------

  /** The ledgers between the calls of a run that starts with an empty tracker. */
  ghost predicate IsRun(gate: Gate, calls: seq<Call>, ledgers: seq<Ledger>)
  {
    && |ledgers| == |calls| + 1 && ledgers[0] == EMPTY
    && forall k :: 0 <= k < |calls| ==> StepAt(gate, calls, ledgers, k)
  }

  ghost predicate StepAt(gate: Gate, calls: seq<Call>, ledgers: seq<Ledger>, k: nat)
    requires k < |calls| < |ledgers|
  {
    ledgers[k + 1] == After(gate, ledgers[k], calls[k])
  }

  /** When the recorded ones of the first k calls were recorded, in milliseconds. */
  ghost function Log(gate: Gate, calls: seq<Call>, ledgers: seq<Ledger>, k: nat): seq<int>
    requires k <= |calls| < |ledgers|
  {
    if k == 0 then []
    else LogStep(Log(gate, calls, ledgers, k - 1), calls[k - 1], gate(ledgers[k - 1], calls[k - 1]))
  }

  ghost function FullLog(gate: Gate, calls: seq<Call>, ledgers: seq<Ledger>): seq<int>
    requires IsRun(gate, calls, ledgers)
  {
    Log(gate, calls, ledgers, |calls|)
  }

  /** One call after the other on a clock that does not go back. */
  ghost predicate Sequential(calls: seq<Call>)
  {
    && (forall i :: 0 <= i < |calls| ==> calls[i].started <= calls[i].pruned <= calls[i].recorded)
    && (forall i, j :: 0 <= i < j < |calls| ==> calls[i].recorded <= calls[j].started)
  }

  /** With the proxy's own timestamps. */
  ghost predicate Orderly(calls: seq<Call>)
  {
    Sequential(calls) && forall i :: 0 <= i < |calls| ==> calls[i].stamp == None
  }

  // ---------- the history holds everything the rate check needs ----------

  /** The history is the tail of the log, short of entries out of the window or beyond the last 1024. */
  ghost predicate Kept(log: seq<int>, history: seq<int>, now: int)
  {
    && |history| <= |log| && |history| <= HISTORY_CAP
    && history == log[|log| - |history|..]
    && forall i :: 0 <= i < |log| - |history| ==> log[i] <= now - RATE_WINDOW_MS || i < |log| - HISTORY_CAP
  }

  ghost predicate Sorted(log: seq<int>)
  {
    forall i, j :: 0 <= i <= j < |log| ==> log[i] <= log[j]
  }

  ghost predicate Upto(log: seq<int>, now: int)
  {
    forall i :: 0 <= i < |log| ==> log[i] <= now
  }

  lemma PruneKeeps(log: seq<int>, history: seq<int>, now: int, later: int)
    requires Kept(log, history, now) && now <= later
    ensures Kept(log, history[Stale(history, later - RATE_WINDOW_MS)..], later)
  {
    var k := Stale(history, later - RATE_WINDOW_MS);
    var d := |log| - |history|;
    assert forall i :: d <= i < d + k ==> log[i] == history[i - d];
  }

  lemma RecordKeeps(log: seq<int>, history: seq<int>, now: int, later: int, t: int)
    requires Kept(log, history, now) && now <= later
    ensures Kept(log + [t], Capped(history + [t]), later)
  {
    assert history + [t] == (log + [t])[|log| - |history|..];
    assert forall i :: 0 <= i < |log| ==> (log + [t])[i] == log[i];
  }

  /** If the last n timestamps are in the window, at least n are counted. */
  lemma {:induction false} CountsTail(ts: seq<int>, now: int, n: nat)
    requires n <= |ts|
    requires forall i :: |ts| - n <= i < |ts| ==> now - RATE_WINDOW_SECS < ts[i] <= now
    ensures CallsInWindow(ts, now) >= n
  {
    if n > 0 {
      CountsTail(ts[..|ts| - 1], now, n - 1);
    }
  }

  lemma {:induction false} CountsAtMostAll(ts: seq<int>, now: int)
    ensures CallsInWindow(ts, now) <= |ts|
  {
    if ts != [] {
      CountsAtMostAll(ts[..|ts| - 1], now);
    }
  }

  /** Any two recorded calls that are `limit` apart in the log are at least 60 seconds apart. */
  ghost predicate Spaced(log: seq<int>, limit: nat)
  {
    forall i :: 0 <= i < |log| - limit ==> Seconds(log[i]) + RATE_WINDOW_SECS <= Seconds(log[i + limit])
  }

  /** A call less than 60 seconds after the limit-th last record is refused. */
  lemma TooSoonIsCounted(log: seq<int>, history: seq<int>, c: Call, limit: nat)
    requires limit <= HISTORY_CAP && limit <= |log|
    requires Sorted(log) && Upto(log, c.started) && Kept(log, history, c.pruned)
    requires c.stamp == None && c.started <= c.pruned <= c.recorded
    requires limit > 0 ==> Seconds(c.recorded) < Seconds(log[|log| - limit]) + RATE_WINDOW_SECS
    ensures CallsInWindow(AllSeconds(history), Now(c)) >= limit
  {
    if limit > 0 {
      var first := |log| - limit;
      assert first >= |log| - |history|;
      var d := |log| - |history|;
      forall i | |history| - limit <= i < |history|
        ensures Now(c) - RATE_WINDOW_SECS < AllSeconds(history)[i] <= Now(c)
      {
        assert history[i] == log[i + d];
        assert log[first] <= log[i + d] <= c.started;
      }
      CountsTail(AllSeconds(history), Now(c), limit);
    }
  }

  /** The history holds the recent part of the log, and the log is in order and spaced. */
  ghost predicate RateInv(log: seq<int>, history: seq<int>, now: int, limit: nat)
  {
    Sorted(log) && Upto(log, now) && Kept(log, history, now) && Spaced(log, limit)
  }

  /** The gate lets a call through only if the rate check passes. */
  ghost predicate RateGuarded(gate: Gate, limit: nat)
  {
    forall l, c :: gate(l, c) ==> CallsInWindow(AllSeconds(Fresh(l.history, c)), Now(c)) < limit
  }

  /** An orderly run keeps it up to its last clock reading. */
  lemma {:induction false} RunKept(gate: Gate, calls: seq<Call>, ledgers: seq<Ledger>, limit: nat, k: nat)
    requires IsRun(gate, calls, ledgers) && Orderly(calls) && 0 < k <= |calls|
    requires RateGuarded(gate, limit) && limit <= HISTORY_CAP
    ensures RateInv(Log(gate, calls, ledgers, k), ledgers[k].history, calls[k - 1].recorded, limit)
  {
    var log, l, c := Log(gate, calls, ledgers, k - 1), ledgers[k - 1], calls[k - 1];
    if k > 1 {
      RunKept(gate, calls, ledgers, limit, k - 1);
    }
    assert StepAt(gate, calls, ledgers, k - 1);
    AfterHistory(gate, l, c);
    StepKept(log, l.history, c, if k == 1 then c.started else calls[k - 2].recorded, limit, gate(l, c));
  }

  lemma AfterHistory(gate: Gate, l: Ledger, c: Call)
    ensures After(gate, l, c).history == HistoryStep(l.history, c, gate(l, c))
  {
  }

  lemma StepKept(log: seq<int>, history: seq<int>, c: Call, now: int, limit: nat, records: bool)
    requires RateInv(log, history, now, limit) && limit <= HISTORY_CAP
    requires c.stamp == None && now <= c.started <= c.pruned <= c.recorded
    requires records ==> CallsInWindow(AllSeconds(Fresh(history, c)), Now(c)) < limit
    ensures RateInv(LogStep(log, c, records), HistoryStep(history, c, records), c.recorded, limit)
  {
    PruneKeeps(log, history, now, c.pruned);
    if records {
      SpacedStep(log, Fresh(history, c), c, limit);
      RecordKeeps(log, Fresh(history, c), c.pruned, c.recorded, c.recorded);
      SortedStep(log, c.started, c.recorded);
    } else {
      KeptLater(log, Fresh(history, c), c.pruned, c.recorded);
    }
  }

  lemma KeptLater(log: seq<int>, history: seq<int>, now: int, later: int)
    requires Kept(log, history, now) && now <= later
    ensures Kept(log, history, later)
  {
  }

  lemma SortedStep(log: seq<int>, now: int, t: int)
    requires Sorted(log) && Upto(log, now) && now <= t
    ensures Sorted(log + [t]) && Upto(log + [t], t)
  {
  }

  lemma PolicyRateGuarded(b: Binding, lower: string -> string, limit: nat)
    requires b.requestsPerMinute == Some(limit)
    ensures RateGuarded(PolicyGate(b, lower), limit)
  {
    forall l, c | PolicyGate(b, lower)(l, c)
      ensures CallsInWindow(AllSeconds(Fresh(l.history, c)), Now(c)) < limit
    {
      assert Passes(b, c.action, ContextOf(l.totalUsd, Fresh(l.history, c), c), lower, RateLimit);
    }
  }

  lemma SpacedStep(log: seq<int>, history: seq<int>, c: Call, limit: nat)
    requires limit <= HISTORY_CAP
    requires Sorted(log) && Upto(log, c.started) && Kept(log, history, c.pruned) && Spaced(log, limit)
    requires c.stamp == None && c.started <= c.pruned <= c.recorded
    requires CallsInWindow(AllSeconds(history), Now(c)) < limit
    ensures Spaced(log + [c.recorded], limit)
  {
    if |log| >= limit && Seconds(c.recorded) < Seconds(log[|log| - limit]) + RATE_WINDOW_SECS {
      TooSoonIsCounted(log, history, c, limit);
    }
  }

  // ---------- the rate bound ----------

  ghost function InMinute(log: seq<int>, from: int): set<nat>
  {
    set i: nat | i < |log| && from <= Seconds(log[i]) < from + RATE_WINDOW_SECS
  }

  function Range(a: nat, n: nat): (s: set<nat>)
    ensures |s| == n
    ensures forall i :: i in s <==> a <= i < a + n
    decreases n
  {
    if n == 0 then {} else Range(a, n - 1) + {a + n - 1}
  }

  /** In a spaced log the records of one minute are at most `limit`. */
  lemma SpacedBoundsMinute(log: seq<int>, limit: nat, from: int)
    requires Sorted(log) && Spaced(log, limit)
    ensures |InMinute(log, from)| <= limit
  {
    var s := InMinute(log, from);
    if s != {} {
      var first := Least(log, from);
      forall i | i in s
        ensures i in Range(first, limit)
      {
        SpacedFar(log, limit, first, i);
      }
      SubsetSize(s, Range(first, limit));
    }
  }

  lemma SpacedFar(log: seq<int>, limit: nat, i: nat, j: nat)
    requires Sorted(log) && Spaced(log, limit) && i < |log| && j < |log|
    ensures i + limit <= j ==> Seconds(log[i]) + RATE_WINDOW_SECS <= Seconds(log[j])
  {
    if i + limit <= j {
      assert Seconds(log[i]) + RATE_WINDOW_SECS <= Seconds(log[i + limit]);
      assert log[i + limit] <= log[j];
    }
  }

  lemma SubsetSize(a: set<nat>, b: set<nat>)
    requires a <= b
    ensures |a| <= |b|
  {
    assert b == a + (b - a);
  }

  lemma Least(log: seq<int>, from: int) returns (first: nat)
    requires InMinute(log, from) != {}
    ensures first in InMinute(log, from) && forall i :: i in InMinute(log, from) ==> first <= i
  {
    first :| first in InMinute(log, from);
    while exists i :: i in InMinute(log, from) && i < first
      invariant first in InMinute(log, from)
      decreases first
    {
      var i :| i in InMinute(log, from) && i < first;
      first := i;
    }
  }

  /** Any 60 consecutive seconds hold at most `limit` recorded calls, pruning, cap and truncation included. */
  lemma RateBound(
    b: Binding, lower: string -> string, calls: seq<Call>, ledgers: seq<Ledger>, limit: nat, from: int)
    requires IsRun(PolicyGate(b, lower), calls, ledgers) && Orderly(calls)
    requires b.requestsPerMinute == Some(limit) && limit <= HISTORY_CAP
    ensures |InMinute(FullLog(PolicyGate(b, lower), calls, ledgers), from)| <= limit
  {
    var gate := PolicyGate(b, lower);
    if calls == [] {
      assert InMinute(FullLog(gate, calls, ledgers), from) == {};
    } else {
      PolicyRateGuarded(b, lower, limit);
      RunKept(gate, calls, ledgers, limit, |calls|);
      SpacedBoundsMinute(FullLog(gate, calls, ledgers), limit, from);
    }
  }

  // ---------- beyond the cap ----------

  ghost predicate Enforced(limit: nat)
  {
    forall b: Binding, lower: string -> string, calls: seq<Call>, ledgers: seq<Ledger>, from: int ::
      b.requestsPerMinute == Some(limit) && Orderly(calls) && IsRun(PolicyGate(b, lower), calls, ledgers) ==>
        |InMinute(FullLog(PolicyGate(b, lower), calls, ledgers), from)| <= limit
  }

  /** A call with an amount whose clock readings are all zero. */
  ghost predicate AtZero(c: Call)
  {
    c.stamp == None && c.started == c.pruned == c.recorded == 0 && c.completes && c.action.amountUsd.Some?
  }

  /** A gate that never refuses such a call while the history is within its cap. */
  ghost predicate OpenAtZero(gate: Gate)
  {
    forall l: Ledger, c :: |l.history| <= HISTORY_CAP && AtZero(c) ==> gate(l, c)
  }

  /** A policy with nothing but a per-minute limit above the history cap is such a gate. */
  lemma AboveCapOpen(b: Binding, limit: nat, lower: string -> string)
    requires b == Binding(None, None, None, Some(limit), None, None, None) && limit > HISTORY_CAP
    ensures OpenAtZero(PolicyGate(b, lower))
  {
    forall l: Ledger, c | |l.history| <= HISTORY_CAP && AtZero(c)
      ensures PolicyGate(b, lower)(l, c)
    {
      CountsAtMostAll(AllSeconds(Fresh(l.history, c)), Now(c));
      forall check
        ensures Passes(b, c.action, ContextOf(l.totalUsd, Fresh(l.history, c), c), lower, check)
      {
        match check
        case _ =>
      }
    }
  }

  /** The history never outgrows its cap. */
  lemma {:induction false} HistoryCapped(gate: Gate, calls: seq<Call>, ledgers: seq<Ledger>, k: nat)
    requires IsRun(gate, calls, ledgers) && k <= |calls|
    ensures |ledgers[k].history| <= HISTORY_CAP
  {
    if k > 0 {
      HistoryCapped(gate, calls, ledgers, k - 1);
      assert StepAt(gate, calls, ledgers, k - 1);
      AfterHistory(gate, ledgers[k - 1], calls[k - 1]);
    }
  }

  lemma OpenGateRecordsAll(gate: Gate, calls: seq<Call>, ledgers: seq<Ledger>)
    requires IsRun(gate, calls, ledgers) && OpenAtZero(gate)
    requires forall i :: 0 <= i < |calls| ==> AtZero(calls[i])
    ensures var log := FullLog(gate, calls, ledgers); |log| == |calls| && AllZero(log)
  {
    forall i | 0 <= i < |calls|
      ensures calls[i].recorded == 0 && gate(ledgers[i], calls[i])
    {
      HistoryCapped(gate, calls, ledgers, i);
      assert AtZero(calls[i]);
    }
    AllLogged(gate, calls, ledgers, |calls|);
  }

  ghost predicate AllZero(log: seq<int>)
  {
    forall i :: 0 <= i < |log| ==> log[i] == 0
  }

  lemma ZeroStep(log: seq<int>, c: Call)
    requires AllZero(log) && c.recorded == 0
    ensures AllZero(LogStep(log, c, true))
  {
  }

  /** Every list of calls has its run. */
  lemma {:induction false} RunExists(gate: Gate, calls: seq<Call>) returns (ledgers: seq<Ledger>)
    ensures IsRun(gate, calls, ledgers)
  {
    if calls == [] {
      ledgers := [EMPTY];
    } else {
      var n := |calls| - 1;
      var before := RunExists(gate, calls[..n]);
      ledgers := before + [After(gate, before[n], calls[n])];
      forall k | 0 <= k < |calls|
        ensures StepAt(gate, calls, ledgers, k)
      {
        assert k < n ==> StepAt(gate, calls[..n], before, k);
      }
    }
  }

  /** An open gate lets more than any given number of calls through in one millisecond. */
  lemma OpenGateBreaks(gate: Gate, limit: nat, c: Call) returns (calls: seq<Call>, ledgers: seq<Ledger>)
    requires OpenAtZero(gate) && AtZero(c)
    ensures Orderly(calls) && IsRun(gate, calls, ledgers)
    ensures |InMinute(FullLog(gate, calls, ledgers), 0)| == limit + 1
  {
    calls := seq(limit + 1, i => c);
    ledgers := RunExists(gate, calls);
    OpenGateRecordsAll(gate, calls, ledgers);
    AllInMinute(FullLog(gate, calls, ledgers));
  }

  lemma AllInMinute(log: seq<int>)
    requires AllZero(log)
    ensures |InMinute(log, 0)| == |log|
  {
    assert InMinute(log, 0) == Range(0, |log|);
  }

  /** The per-minute limit is enforced exactly for limits up to the history cap. */
  lemma EnforcedIff(limit: nat)
    ensures Enforced(limit) <==> limit <= 1024
  {
    if limit <= HISTORY_CAP {
      forall b: Binding, lower: string -> string, calls: seq<Call>, ledgers: seq<Ledger>, from: int
        | b.requestsPerMinute == Some(limit) && Orderly(calls) && IsRun(PolicyGate(b, lower), calls, ledgers)
        ensures |InMinute(FullLog(PolicyGate(b, lower), calls, ledgers), from)| <= limit
      {
        RateBound(b, lower, calls, ledgers, limit, from);
      }
    } else {
      var b := Binding(None, None, None, Some(limit), None, None, None);
      var c := Call(Action("t", Some(0.0), None, [], 0), None, "a", 0, 0, 0, "00:00", true);
      var lower := (s: string) => s;
      AboveCapOpen(b, limit, lower);
      var calls, ledgers := OpenGateBreaks(PolicyGate(b, lower), limit, c);
      assert |InMinute(FullLog(PolicyGate(b, lower), calls, ledgers), 0)| > limit;
    }
  }

  /** With a limit above the history cap the rate check passes in every state of every run. */
  lemma AboveCapNeverRefuses(
    gate: Gate, calls: seq<Call>, ledgers: seq<Ledger>, k: nat, b: Binding, lower: string -> string, c: Call)
    requires IsRun(gate, calls, ledgers) && k <= |calls|
    requires b.requestsPerMinute.Some? && b.requestsPerMinute.value > HISTORY_CAP
    ensures Passes(b, c.action, ContextOf(ledgers[k].totalUsd, Fresh(ledgers[k].history, c), c), lower, RateLimit)
  {
    HistoryCapped(gate, calls, ledgers, k);
    CountsAtMostAll(AllSeconds(Fresh(ledgers[k].history, c)), Now(c));
  }

  // ---------- calls that run ----------

  /** The calls whose tool runs, recorded or not. */
  ghost function RunGate(b: Binding, lower: string -> string): Gate
  {
    (l, c) => Runs(b, lower, l, c)
  }

  /** When the calls whose tool ran ended, in milliseconds. */
  ghost function RunLog(b: Binding, lower: string -> string, calls: seq<Call>, ledgers: seq<Ledger>): seq<int>
    requires |calls| < |ledgers|
  {
    Log(RunGate(b, lower), calls, ledgers, |calls|)
  }

  /** Whether a call carries an amount, its tool returns, and its timestamp is the proxy's own. */
  datatype Kind = Kind(amount: bool, completes: bool, ownStamp: bool)

  predicate OfKind(c: Call, kind: Kind)
  {
    c.action.amountUsd.Some? == kind.amount && c.completes == kind.completes && c.stamp.None? == kind.ownStamp
  }

  ghost predicate AllOfKind(calls: seq<Call>, kind: Kind)
  {
    forall i :: 0 <= i < |calls| ==> OfKind(calls[i], kind)
  }

  /** In all sequential runs of such calls under all policies with this limit, a minute holds at most that many. */
  ghost predicate Bounded(limit: nat, kind: Kind)
  {
    forall b: Binding, lower: string -> string, calls: seq<Call>, ledgers: seq<Ledger>, from: int ::
      b.requestsPerMinute == Some(limit) && Sequential(calls) && AllOfKind(calls, kind)
      && IsRun(PolicyGate(b, lower), calls, ledgers) ==>
        |InMinute(RunLog(b, lower, calls, ledgers), from)| <= limit
  }

  /** The limit can see such calls. */
  predicate Counted(limit: nat, kind: Kind)
  {
    kind.amount && kind.completes && kind.ownStamp && limit <= HISTORY_CAP
  }

  /** A limit of zero refuses everything. */
  lemma {:induction false} ZeroRefusesAll(
    b: Binding, lower: string -> string, calls: seq<Call>, ledgers: seq<Ledger>, k: nat)
    requires b.requestsPerMinute == Some(0) && k <= |calls| < |ledgers|
    ensures Log(RunGate(b, lower), calls, ledgers, k) == []
  {
    if k > 0 {
      ZeroRefusesAll(b, lower, calls, ledgers, k - 1);
      var l, c := ledgers[k - 1], calls[k - 1];
      assert !Passes(b, c.action, ContextOf(l.totalUsd, Fresh(l.history, c), c), lower, RateLimit);
    }
  }

  /** Calls with an amount whose tool returns run exactly when they are recorded. */
  lemma {:induction false} RunsAreRecorded(
    b: Binding, lower: string -> string, calls: seq<Call>, ledgers: seq<Ledger>, k: nat)
    requires k <= |calls| < |ledgers|
    requires forall i :: 0 <= i < |calls| ==> calls[i].action.amountUsd.Some? && calls[i].completes
    ensures Log(RunGate(b, lower), calls, ledgers, k) == Log(PolicyGate(b, lower), calls, ledgers, k)
  {
    if k > 0 {
      RunsAreRecorded(b, lower, calls, ledgers, k - 1);
      assert RunGate(b, lower)(ledgers[k - 1], calls[k - 1]) == PolicyGate(b, lower)(ledgers[k - 1], calls[k - 1]);
    }
  }

  /** A call of each kind in the first millisecond; a timestamp that is not the proxy's own lies far in the past. */
  function Sample(kind: Kind): Call
  {
    var amount := if kind.amount then Some(0.0) else None;
    Call(Action("t", amount, None, [], 0), if kind.ownStamp then None else Some(-1000), "a", 0, 0, 0, "00:00",
         kind.completes)
  }

  /** Repeating it leaves a history of zeros, and an empty one if nothing is recorded. */
  lemma {:induction false} SampleHistory(
    b: Binding, lower: string -> string, kind: Kind, calls: seq<Call>, ledgers: seq<Ledger>, k: nat)
    requires IsRun(PolicyGate(b, lower), calls, ledgers) && k <= |calls|
    requires forall i :: 0 <= i < |calls| ==> calls[i] == Sample(kind)
    ensures AllZero(ledgers[k].history)
    ensures !(kind.amount && kind.completes) ==> ledgers[k].history == []
  {
    if k > 0 {
      SampleHistory(b, lower, kind, calls, ledgers, k - 1);
      assert StepAt(PolicyGate(b, lower), calls, ledgers, k - 1);
      AfterHistory(PolicyGate(b, lower), ledgers[k - 1], calls[k - 1]);
    }
  }

  lemma {:induction false} CountsNone(ts: seq<int>, now: int)
    requires forall i :: 0 <= i < |ts| ==> ts[i] > now
    ensures CallsInWindow(ts, now) == 0
  {
    if ts != [] {
      CountsNone(ts[..|ts| - 1], now);
    }
  }

  /** Unless the limit can see such calls, it lets the sample through whatever was recorded of it. */
  lemma SampleUncounted(limit: nat, kind: Kind, history: seq<int>)
    requires limit > 0 && !Counted(limit, kind)
    requires AllZero(history) && |history| <= HISTORY_CAP
    requires !(kind.amount && kind.completes) ==> history == []
    ensures CallsInWindow(AllSeconds(Fresh(history, Sample(kind))), Now(Sample(kind))) < limit
  {
    var c := Sample(kind);
    var recent := AllSeconds(Fresh(history, c));
    CountsAtMostAll(recent, Now(c));
    if !kind.ownStamp {
      CountsNone(recent, Now(c));
    }
  }

  lemma RateOnlyPermits(b: Binding, limit: nat, lower: string -> string, a: Action, ctx: Context)
    requires b == Binding(None, None, None, Some(limit), None, None, None)
    requires CallsInWindow(ctx.recent, ctx.nowEpoch) < limit
    ensures Permitted(b, a, ctx, lower)
  {
    forall check
      ensures Passes(b, a, ctx, lower, check)
    {
      match check
      case _ =>
    }
  }

  lemma SampleRuns(
    b: Binding, limit: nat, lower: string -> string, kind: Kind, calls: seq<Call>, ledgers: seq<Ledger>, k: nat)
    requires b == Binding(None, None, None, Some(limit), None, None, None) && limit > 0 && !Counted(limit, kind)
    requires IsRun(PolicyGate(b, lower), calls, ledgers) && k < |calls|
    requires forall i :: 0 <= i < |calls| ==> calls[i] == Sample(kind)
    ensures RunGate(b, lower)(ledgers[k], calls[k])
  {
    var l, c := ledgers[k], Sample(kind);
    SampleHistory(b, lower, kind, calls, ledgers, k);
    HistoryCapped(PolicyGate(b, lower), calls, ledgers, k);
    SampleUncounted(limit, kind, l.history);
    RateOnlyPermits(b, limit, lower, c.action, ContextOf(l.totalUsd, Fresh(l.history, c), c));
  }

  /** Through a gate open for each of them, calls that end at zero are all logged at zero. */
  lemma {:induction false} AllLogged(gate: Gate, calls: seq<Call>, ledgers: seq<Ledger>, k: nat)
    requires k <= |calls| < |ledgers|
    requires forall i :: 0 <= i < k ==> calls[i].recorded == 0 && gate(ledgers[i], calls[i])
    ensures var log := Log(gate, calls, ledgers, k); |log| == k && AllZero(log)
  {
    if k > 0 {
      AllLogged(gate, calls, ledgers, k - 1);
      ZeroStep(Log(gate, calls, ledgers, k - 1), calls[k - 1]);
    }
  }

  /** The breaking run: more calls than the limit, all in one millisecond, and every tool runs. */
  lemma UncountedCallsRun(limit: nat, kind: Kind, lower: string -> string)
    returns (b: Binding, calls: seq<Call>, ledgers: seq<Ledger>)
    requires limit > 0 && !Counted(limit, kind)
    ensures b.requestsPerMinute == Some(limit) && Sequential(calls) && AllOfKind(calls, kind)
    ensures IsRun(PolicyGate(b, lower), calls, ledgers)
    ensures |InMinute(RunLog(b, lower, calls, ledgers), 0)| == limit + 1
  {
    b := Binding(None, None, None, Some(limit), None, None, None);
    calls := seq(limit + 1, i => Sample(kind));
    ledgers := RunExists(PolicyGate(b, lower), calls);
    forall i | 0 <= i <= limit
      ensures calls[i].recorded == 0 && RunGate(b, lower)(ledgers[i], calls[i])
    {
      SampleRuns(b, limit, lower, kind, calls, ledgers, i);
    }
    AllLogged(RunGate(b, lower), calls, ledgers, limit + 1);
    AllInMinute(RunLog(b, lower, calls, ledgers));
  }

  /** A run of counted calls keeps the limit. */
  lemma CountedCallsBounded(
    b: Binding, lower: string -> string, limit: nat, kind: Kind, calls: seq<Call>, ledgers: seq<Ledger>, from: int)
    requires b.requestsPerMinute == Some(limit) && Sequential(calls) && AllOfKind(calls, kind)
    requires IsRun(PolicyGate(b, lower), calls, ledgers)
    requires limit == 0 || Counted(limit, kind)
    ensures |InMinute(RunLog(b, lower, calls, ledgers), from)| <= limit
  {
    if limit == 0 {
      ZeroRefusesAll(b, lower, calls, ledgers, |calls|);
      assert InMinute([], from) == {};
    } else {
      assert forall i :: 0 <= i < |calls| ==> OfKind(calls[i], kind);
      RunsAreRecorded(b, lower, calls, ledgers, |calls|);
      RateBound(b, lower, calls, ledgers, limit, from);
    }
  }

  /**
   The limit bounds the calls that run exactly when it is zero, or the calls carry an
   amount, their tools return, the timestamps are the proxy's own and it is at most 1024.
   */
  lemma BoundedIff(limit: nat, kind: Kind)
    ensures Bounded(limit, kind) <==> limit == 0 || Counted(limit, kind)
  {
    if limit == 0 || Counted(limit, kind) {
      forall b: Binding, lower: string -> string, calls: seq<Call>, ledgers: seq<Ledger>, from: int
        | b.requestsPerMinute == Some(limit) && Sequential(calls) && AllOfKind(calls, kind)
          && IsRun(PolicyGate(b, lower), calls, ledgers)
        ensures |InMinute(RunLog(b, lower, calls, ledgers), from)| <= limit
      {
        CountedCallsBounded(b, lower, limit, kind, calls, ledgers, from);
      }
    } else {
      var lower := (s: string) => s;
      var b, calls, ledgers := UncountedCallsRun(limit, kind, lower);
      assert |InMinute(RunLog(b, lower, calls, ledgers), 0)| > limit;
    }
  }

  // ---------- the budget ----------

  /** With a cap the total never exceeds it, whatever the amounts are. */
  lemma {:induction false} BudgetBound(
    b: Binding, lower: string -> string, calls: seq<Call>, ledgers: seq<Ledger>, cap: real, k: nat)
    requires IsRun(PolicyGate(b, lower), calls, ledgers) && k <= |calls|
    requires b.maxBudgetUsd == Some(cap) && cap >= 0.0
    ensures ledgers[k].totalUsd <= cap
  {
    if k > 0 {
      BudgetBound(b, lower, calls, ledgers, cap, k - 1);
      var l, c := ledgers[k - 1], calls[k - 1];
      assert StepAt(PolicyGate(b, lower), calls, ledgers, k - 1);
      assert Records(b, lower, l, c) ==>
               Passes(b, c.action, ContextOf(l.totalUsd, Fresh(l.history, c), c), lower, Budget);
    }
  }

  lemma UnrecordedStep(gate: Gate, l: Ledger, c: Call)
    requires !gate(l, c) && l.history == []
    ensures After(gate, l, c) == l
  {
    PruneEmpty(l, c.pruned - RATE_WINDOW_MS);
  }

  lemma PruneEmpty(l: Ledger, cutoff: int)
    requires l.history == []
    ensures Apply(l, Pruned(cutoff)) == l
  {
    var k := Stale(l.history, cutoff);
    assert k == 0 && l.history[k..] == l.history;
    assert Apply(l, Pruned(cutoff)) == Ledger(l.totalUsd, l.history[k..], l.pending, l.flush);
  }

  ghost predicate Unrecorded(gate: Gate, calls: seq<Call>, ledgers: seq<Ledger>, k: nat)
    requires k < |calls| < |ledgers|
  {
    !gate(ledgers[k], calls[k])
  }

  lemma {:induction false} NoTrace(gate: Gate, calls: seq<Call>, ledgers: seq<Ledger>, k: nat)
    requires IsRun(gate, calls, ledgers) && k <= |calls|
    requires forall i :: 0 <= i < |calls| ==> Unrecorded(gate, calls, ledgers, i)
    ensures ledgers[k] == ledgers[0]
  {
    if k > 0 {
      NoTrace(gate, calls, ledgers, k - 1);
      assert Unrecorded(gate, calls, ledgers, k - 1);
      UnrecordedStep(gate, ledgers[k - 1], calls[k - 1]);
      assert StepAt(gate, calls, ledgers, k - 1);
    }
  }

  /** Calls without an amount and calls whose tool throws leave the ledger empty, however many run. */
  lemma UnrecordedNothingCounts(
    b: Binding, lower: string -> string, calls: seq<Call>, ledgers: seq<Ledger>, k: nat)
    requires IsRun(PolicyGate(b, lower), calls, ledgers) && k <= |calls|
    requires forall i :: 0 <= i < |calls| ==> calls[i].action.amountUsd.None? || !calls[i].completes
    ensures ledgers[k] == EMPTY
  {
    forall i | 0 <= i < |calls|
      ensures Unrecorded(PolicyGate(b, lower), calls, ledgers, i)
    {
      assert calls[i].action.amountUsd.None? || !calls[i].completes;
    }
    NoTrace(PolicyGate(b, lower), calls, ledgers, k);
  }
}
