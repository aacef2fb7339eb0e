/**
 The in-memory spend and rate ledger of the agent SDK.  Amounts are reals; the
 clock is an argument.  An asynchronous flush is three synchronous parts with
 anything in between: it takes a snapshot, the flush function answers, and the
 in-flight mark is cleared.
 */
module BudgetTracker {

  const HISTORY_CAP := 1024

  datatype SpendRecord = SpendRecord(amountUsd: real, actionId: string, timestamp: int)

  datatype Flush = Idle | Sending(snapshot: seq<SpendRecord>) | Answered

  datatype Ledger = Ledger(totalUsd: real, history: seq<int>, pending: seq<SpendRecord>, flush: Flush)

  const EMPTY := Ledger(0.0, [], [], Idle)

  // ---------- what each operation does ----------

  /** The last 1024 entries. */
  function Capped(s: seq<int>): seq<int>
  {
    if |s| > HISTORY_CAP then s[|s| - HISTORY_CAP..] else s
  }

  /** How many leading entries are at or before the cutoff. */
  function Stale(s: seq<int>, cutoff: int): (k: nat)
    ensures k <= |s|
    ensures forall i :: 0 <= i < k ==> s[i] <= cutoff
    ensures k < |s| ==> s[k] > cutoff
  {
    if s == [] || s[0] > cutoff then 0 else 1 + Stale(s[1..], cutoff)
  }

  /** `splice(0, k)`: removes the first k entries, or all of them. */
  function Drop(s: seq<SpendRecord>, k: nat): seq<SpendRecord>
  {
    if k <= |s| then s[k..] else []
  }

  datatype Event =
    | Recorded(r: SpendRecord)
    | Pruned(cutoff: int)
    | FlushCalled
    | FlushAnswered(ok: bool)
    | FlushCleared

  /** Answers arrive only for a flush in progress, and only an answered flush is cleared. */
  predicate Enabled(l: Ledger, e: Event)
  {
    (e.FlushAnswered? ==> l.flush.Sending?) && (e.FlushCleared? ==> l.flush.Answered?)
  }

  function Apply(l: Ledger, e: Event): Ledger
    requires Enabled(l, e)
  {
    match e
    case Recorded(r) =>
      Ledger(l.totalUsd + r.amountUsd, Capped(l.history + [r.timestamp]), l.pending + [r], l.flush)
    case Pruned(cutoff) => l.(history := l.history[Stale(l.history, cutoff)..])
    case FlushCalled => if l.flush != Idle || l.pending == [] then l else l.(flush := Sending(l.pending))
    case FlushAnswered(ok) =>
      l.(pending := if ok then Drop(l.pending, |l.flush.snapshot|) else l.pending, flush := Answered)
    case FlushCleared => l.(flush := Idle)
  }

  // ---------- the tracker object ----------

  class Tracker {
    var totalUsd: real
    var callTimestampsMs: seq<int>
    var pending: seq<SpendRecord>
    var inflightFlush: Flush

    ghost function State(): Ledger
      reads this
    {
      Ledger(totalUsd, callTimestampsMs, pending, inflightFlush)
    }

    constructor ()
      ensures State() == EMPTY
    {
      totalUsd, callTimestampsMs, pending, inflightFlush := 0.0, [], [], Idle;
    }

    method Record(amountUsd: real, actionId: string, now: int)
      modifies this
      ensures State() == Apply(old(State()), Recorded(SpendRecord(amountUsd, actionId, now)))
    {
      totalUsd := totalUsd + amountUsd;
      callTimestampsMs := callTimestampsMs + [now];
      if |callTimestampsMs| > HISTORY_CAP {
        callTimestampsMs := callTimestampsMs[|callTimestampsMs| - HISTORY_CAP..];
      }
      pending := pending + [SpendRecord(amountUsd, actionId, now)];
    }

    method Total() returns (total: real)
      ensures total == State().totalUsd
    {
      total := totalUsd;
    }

    /** The scan for the first fresh entry drops exactly the stale ones before it. */
    method RecentCalls(windowMs: int, now: int) returns (calls: seq<int>)
      modifies this`callTimestampsMs
      ensures State() == Apply(old(State()), Pruned(now - windowMs))
      ensures calls == callTimestampsMs
    {
      var cutoff := now - windowMs;
      var firstFresh := 0;
      var i := 0;
      while i < |callTimestampsMs|
        invariant 0 <= i <= |callTimestampsMs| && firstFresh == i
        invariant forall j :: 0 <= j < i ==> callTimestampsMs[j] <= cutoff
      {
        if callTimestampsMs[i] > cutoff {
          firstFresh := i;
          break;
        }
        firstFresh := i + 1;
        i := i + 1;
      }
      StaleUnique(callTimestampsMs, cutoff, firstFresh);
      if firstFresh > 0 {
        callTimestampsMs := callTimestampsMs[firstFresh..];
      }
      calls := callTimestampsMs;
    }

    /** Joins a flush in progress, returns at once if nothing is pending, or snapshots the pending records. */
    method FlushStart()
      modifies this`inflightFlush
      ensures State() == Apply(old(State()), FlushCalled)
    {
      if inflightFlush != Idle {
        return;
      }
      var snapshot := pending;
      if snapshot == [] {
        return;
      }
      inflightFlush := Sending(snapshot);
    }

    /** The flush function has answered: on success exactly the records sent are dropped. */
    method FlushAnswer(ok: bool)
      requires inflightFlush.Sending?
      modifies this`pending, this`inflightFlush
      ensures State() == Apply(old(State()), FlushAnswered(ok))
    {
      if ok {
        pending := Drop(pending, |inflightFlush.snapshot|);
      }
      inflightFlush := Answered;
    }

    method FlushClear()
      requires inflightFlush.Answered?
      modifies this`inflightFlush
      ensures State() == Apply(old(State()), FlushCleared)
    {
      inflightFlush := Idle;
    }
  }

  lemma {:induction false} StaleUnique(s: seq<int>, cutoff: int, k: nat)
    requires k <= |s| && (forall i :: 0 <= i < k ==> s[i] <= cutoff) && (k < |s| ==> s[k] > cutoff)
    ensures Stale(s, cutoff) == k
  {
    if k > 0 {
      StaleUnique(s[1..], cutoff, k - 1);
    }
  }

  // ---------- every interleaving ----------

  /** The ledgers of a run: `ledgers[k]` is the one before event k. */
  ghost predicate Run(ledgers: seq<Ledger>, events: seq<Event>)
  {
    && |ledgers| == |events| + 1 && ledgers[0] == EMPTY
    && forall k :: 0 <= k < |events| ==>
         Enabled(ledgers[k], events[k]) && ledgers[k + 1] == Apply(ledgers[k], events[k])
  }

  /** What an event records. */
  function Input(e: Event): seq<SpendRecord>
  {
    if e.Recorded? then [e.r] else []
  }

  /** What the flush function has accepted when an event is its positive answer. */
  function Output(l: Ledger, e: Event): seq<SpendRecord>
  {
    if e == FlushAnswered(true) && l.flush.Sending? then l.flush.snapshot else []
  }

  function RecordedBy(events: seq<Event>, k: nat): seq<SpendRecord>
    requires k <= |events|
  {
    if k == 0 then [] else RecordedBy(events, k - 1) + Input(events[k - 1])
  }

  function DeliveredBy(ledgers: seq<Ledger>, events: seq<Event>, k: nat): seq<SpendRecord>
    requires k <= |events| && |ledgers| == |events| + 1
  {
    if k == 0 then [] else DeliveredBy(ledgers, events, k - 1) + Output(ledgers[k - 1], events[k - 1])
  }

  function Sum(rs: seq<SpendRecord>): real
  {
    if rs == [] then 0.0 else Sum(rs[..|rs| - 1]) + rs[|rs| - 1].amountUsd
  }

  /**
   Nothing lost, nothing twice, in order: what was delivered, then what is pending,
   is what was recorded; a snapshot in flight is a prefix of what is pending.
   */
  ghost predicate Balanced(delivered: seq<SpendRecord>, l: Ledger, recorded: seq<SpendRecord>)
  {
    && delivered + l.pending == recorded
    && (l.flush.Sending? ==> l.flush.snapshot <= l.pending)
    && l.totalUsd == Sum(recorded)
  }

  lemma StepBalanced(delivered: seq<SpendRecord>, l: Ledger, recorded: seq<SpendRecord>, e: Event)
    requires Balanced(delivered, l, recorded) && Enabled(l, e)
    ensures Balanced(delivered + Output(l, e), Apply(l, e), recorded + Input(e))
  {
    assert delivered + [] == delivered && recorded + [] == recorded;
    if e.Recorded? {
      assert delivered + (l.pending + [e.r]) == (delivered + l.pending) + [e.r];
      assert (recorded + [e.r])[..|recorded|] == recorded;
    } else if e == FlushAnswered(true) {
      var sent := l.flush.snapshot;
      assert l.pending == sent + l.pending[|sent|..];
      assert delivered + (sent + l.pending[|sent|..]) == (delivered + sent) + l.pending[|sent|..];
    }
  }

  /** Conservation in every interleaving of records, prunings and flushes. */
  lemma {:induction false} FlushConservation(ledgers: seq<Ledger>, events: seq<Event>, k: nat)
    requires Run(ledgers, events) && k <= |events|
    ensures Balanced(DeliveredBy(ledgers, events, k), ledgers[k], RecordedBy(events, k))
  {
    if k > 0 {
      FlushConservation(ledgers, events, k - 1);
      StepBalanced(DeliveredBy(ledgers, events, k - 1), ledgers[k - 1], RecordedBy(events, k - 1), events[k - 1]);
    }
  }

  /** A flush that starts sends everything pending; one that is joined or has nothing to send changes nothing. */
  lemma FlushSendsAll(l: Ledger)
    ensures var l' := Apply(l, FlushCalled);
            && (l.flush == Idle && l.pending != [] ==> l'.flush == Sending(l.pending) && l' == l.(flush := l'.flush))
            && (l.flush != Idle || l.pending == [] ==> l' == l)
  {
  }

  /** So a flush answered with success, whatever was recorded meanwhile, leaves exactly what came after its start. */
  lemma {:induction false} FlushLeavesTheRest(l: Ledger, records: seq<SpendRecord>)
    requires l.flush == Idle && l.pending != []
    ensures var sent := After(Apply(l, FlushCalled), records);
            && sent.flush == Sending(l.pending) && sent.pending == l.pending + records
            && Apply(sent, FlushAnswered(true)).pending == records
            && Apply(sent, FlushAnswered(false)).pending == l.pending + records
  {
    if records != [] {
      FlushLeavesTheRest(l, records[..|records| - 1]);
      assert records == records[..|records| - 1] + [records[|records| - 1]];
    }
    var sent := After(Apply(l, FlushCalled), records);
    assert sent.pending == l.pending + records ==> Drop(sent.pending, |l.pending|) == records;
  }

  /** Recording one after the other. */
  ghost function After(l: Ledger, records: seq<SpendRecord>): Ledger
  {
    if records == [] then l else Apply(After(l, records[..|records| - 1]), Recorded(records[|records| - 1]))
  }
}
