/**
 Runs of the anchoring worker: receipts arrive; a pass reads the watermark of the
 submitted batches, selects receipts, inserts a batch row and later records whether
 it was submitted.  The four parts of a pass are separate steps, and passes of a
 tenant may overlap.
 */
module AnchorRuns {
  import opened Bytes
  import opened AnchorBatches

  /** A batch is `Selected` while its pass has read its receipts and not yet inserted its row. */
  datatype Status = Selected | Pending | Submitted | Partial | Failed

  /** A batch.  `after` is the watermark its pass used and `sealed` its selection; the table stores the bounds. */
  datatype Batch = Batch(tenant: Text, after: Key, sealed: seq<Row>, status: Status)
  {
    function Lo(): Key
      requires sealed != []
    {
      KeyOf(sealed[0])
    }

    function Hi(): Key
      requires sealed != []
    {
      KeyOf(sealed[|sealed| - 1])
    }
  }

  /** The receipts, the watermarks read so far, and the batches in the order of their selections. */
  datatype Log = Log(rows: set<Row>, marks: set<(Text, Key)>, batches: seq<Batch>)

  /** The watermark before anything was submitted. */
  const FLOOR := Key(0, [])

  datatype Provider = Disabled | Succeeded | Errored

  /** What the two providers' results make of a batch: every configured provider must have succeeded. */
  function AnchorStatus(btc: Provider, sol: Provider): (s: Status)
    ensures Moves(Pending, s)
    ensures s == Submitted <==> !btc.Errored? && !sol.Errored? && !(btc.Disabled? && sol.Disabled?)
    ensures s == Failed <==> !btc.Succeeded? && !sol.Succeeded?
  {
    var expected := (if btc.Disabled? then 0 else 1) + (if sol.Disabled? then 0 else 1);
    var successes := (if btc.Succeeded? then 1 else 0) + (if sol.Succeeded? then 1 else 0);
    if expected > 0 && successes == expected then Submitted
    else if successes > 0 then Partial
    else Failed
  }

  ghost predicate SubmittedFor(b: Batch, tenant: Text)
  {
    b.tenant == tenant && b.status == Submitted && b.sealed != []
  }

  /** `WHERE submitted ORDER BY to_created_at DESC LIMIT 1`: on equal times the database may return either row. */
  ghost predicate IsWatermark(s: Log, tenant: Text, w: Key)
  {
    if exists i :: 0 <= i < |s.batches| && SubmittedFor(s.batches[i], tenant)
    then
      exists i :: 0 <= i < |s.batches| && SubmittedFor(s.batches[i], tenant) && s.batches[i].Hi() == w
                  && forall j :: 0 <= j < |s.batches| && SubmittedFor(s.batches[j], tenant) ==>
                       s.batches[j].Hi().createdAt <= w.createdAt
    else w == FLOOR
  }

  // ---------- steps ----------

  /** What becomes of a batch: its pass may stop before the row is inserted, and a row is resolved once. */
  predicate Moves(from: Status, to: Status)
  {
    || (from == Selected && (to == Pending || to == Failed))
    || (from == Pending && (to == Submitted || to == Partial || to == Failed))
  }

  /** A batch that is submitted or may still become so. */
  predicate Live(b: Batch)
  {
    b.status == Selected || b.status == Pending || b.status == Submitted
  }

  /** The receipt sorts after the end of every live batch of its tenant. */
  ghost predicate AfterLive(s: Log, r: Row)
  {
    forall b :: b in s.batches && b.tenant == r.tenantId && Live(b) && b.sealed != [] ==> Less(b.Hi(), KeyOf(r))
  }

  function Arrived(s: Log, r: Row): Log
  {
    s.(rows := s.rows + {r})
  }

  ghost predicate ReadStep(s: Log, tenant: Text, w: Key, s': Log)
  {
    IsWatermark(s, tenant, w) && s' == s.(marks := s.marks + {(tenant, w)})
  }

  /** The watermark may have been read long before. */
  ghost predicate SelectStep(cap: nat, s: Log, tenant: Text, w: Key, sel: seq<Row>, s': Log)
  {
    && (tenant, w) in s.marks && sel != []
    && IsSelection(sel, s.rows, tenant, w, cap)
    && s' == s.(batches := s.batches + [Batch(tenant, w, sel, Selected)])
  }

  function WithStatus(s: Log, i: nat, status: Status): Log
    requires i < |s.batches|
  {
    s.(batches := s.batches[i := s.batches[i].(status := status)])
  }

  ghost predicate MoveStep(s: Log, i: nat, status: Status, s': Log)
  {
    i < |s.batches| && Moves(s.batches[i].status, status) && s' == WithStatus(s, i, status)
  }

  /** A step of a worker pass. */
  ghost predicate PassStep(cap: nat, s: Log, s': Log)
  {
    || (exists tenant, w :: ReadStep(s, tenant, w, s'))
    || (exists tenant, w, sel :: SelectStep(cap, s, tenant, w, sel, s'))
    || (exists i, status :: MoveStep(s, i, status, s'))
  }

  /** A step in which a new receipt sorts after every live end. */
  ghost predicate Step(cap: nat, s: Log, s': Log)
  {
    PassStep(cap, s, s') || exists r :: s' == Arrived(s, r) && Less(FLOOR, KeyOf(r)) && AfterLive(s, r)
  }

  ghost predicate Steps(cap: nat, states: seq<Log>)
  {
    |states| > 0 && forall k :: 0 <= k < |states| - 1 ==> Step(cap, states[k], states[k + 1])
  }

  ghost predicate Initial(s: Log)
  {
    s.batches == [] && s.marks == {} && forall r :: r in s.rows ==> Less(FLOOR, KeyOf(r))
  }

  ghost predicate Run(cap: nat, states: seq<Log>)
  {
    Steps(cap, states) && Initial(states[0])
  }

  // ---------- the invariant ----------

  /** A live batch holds exactly the tenant's receipts after its watermark up to its end. */
  ghost predicate Exact(rows: set<Row>, b: Batch)
  {
    && b.sealed != [] && StrictlySorted(b.sealed)
    && forall r: Row :: r in b.sealed <==>
         r in rows && r.tenantId == b.tenant && Less(b.after, KeyOf(r)) && AtMost(KeyOf(r), b.Hi())
  }

  /** A watermark is the floor or the end of a submitted batch among the first n. */
  ghost predicate Known(batches: seq<Batch>, n: nat, tenant: Text, w: Key)
    requires n <= |batches|
  {
    w == FLOOR || exists j :: 0 <= j < n && SubmittedFor(batches[j], tenant) && batches[j].Hi() == w
  }

  ghost predicate Inv(s: Log)
  {
    && (forall r :: r in s.rows ==> Less(FLOOR, KeyOf(r)))
    && (forall b :: b in s.batches && Live(b) ==> Exact(s.rows, b))
    && (forall b :: b in s.batches ==> b.sealed != [] && forall r :: r in b.sealed ==> r in s.rows)
    && (forall i :: 0 <= i < |s.batches| ==> Known(s.batches, i, s.batches[i].tenant, s.batches[i].after))
    && (forall t, w :: (t, w) in s.marks ==> Known(s.batches, |s.batches|, t, w))
  }

  lemma ArrivalKeepsInv(s: Log, r: Row)
    requires Inv(s) && Less(FLOOR, KeyOf(r)) && AfterLive(s, r)
    ensures Inv(Arrived(s, r))
  {
    var s' := Arrived(s, r);
    forall b | b in s.batches && Live(b)
      ensures Exact(s'.rows, b)
    {
      assert Exact(s.rows, b);
      if b.tenant == r.tenantId {
        Order(b.Hi(), KeyOf(r), b.Hi());
      }
    }
  }

  lemma SelectKeepsInv(cap: nat, s: Log, tenant: Text, w: Key, sel: seq<Row>, s': Log)
    requires Inv(s) && SelectStep(cap, s, tenant, w, sel, s')
    ensures Inv(s')
  {
    var b := Batch(tenant, w, sel, Selected);
    forall r: Row
      ensures r in sel <==> r in s.rows && r.tenantId == tenant && Less(w, KeyOf(r)) && AtMost(KeyOf(r), b.Hi())
    {
      SelectionIsInterval(sel, s.rows, tenant, w, cap, r);
    }
    assert Exact(s.rows, b);
    forall n, t, v | 0 <= n <= |s.batches| && Known(s.batches, n, t, v)
      ensures Known(s'.batches, n, t, v)
    {
      KnownStays(s.batches, s'.batches, n, t, v);
    }
    forall t, v | (t, v) in s.marks
      ensures Known(s'.batches, |s'.batches|, t, v)
    {
      assert Known(s.batches, |s.batches|, t, v);
      KnownStays(s.batches, s'.batches, |s.batches|, t, v);
    }
  }

  /** A known watermark stays known while submitted batches stay. */
  lemma KnownStays(batches: seq<Batch>, later: seq<Batch>, n: nat, tenant: Text, w: Key)
    requires n <= |batches| <= |later| && Known(batches, n, tenant, w)
    requires forall j :: 0 <= j < n && batches[j].status == Submitted ==> later[j] == batches[j]
    ensures Known(later, n, tenant, w)
    ensures Known(later, |later|, tenant, w)
  {
    if w != FLOOR {
      var j :| 0 <= j < n && SubmittedFor(batches[j], tenant) && batches[j].Hi() == w;
      assert later[j] == batches[j];
    }
  }

  lemma MoveKeepsInv(s: Log, k: nat, status: Status, s': Log)
    requires Inv(s) && MoveStep(s, k, status, s')
    ensures Inv(s')
  {
    forall b | b in s'.batches
      ensures (Live(b) ==> Exact(s'.rows, b)) && b.sealed != [] && forall r :: r in b.sealed ==> r in s.rows
    {
      var i :| 0 <= i < |s'.batches| && s'.batches[i] == b;
      assert s.batches[i] in s.batches;
      assert Live(s.batches[i]) ==> Exact(s.rows, s.batches[i]);
    }
    forall i | 0 <= i < |s'.batches|
      ensures Known(s'.batches, i, s'.batches[i].tenant, s'.batches[i].after)
    {
      KnownStays(s.batches, s'.batches, i, s.batches[i].tenant, s.batches[i].after);
    }
    forall t, w | (t, w) in s.marks
      ensures Known(s'.batches, |s'.batches|, t, w)
    {
      KnownStays(s.batches, s'.batches, |s.batches|, t, w);
    }
  }

  lemma StepKeepsInv(cap: nat, s: Log, s': Log)
    requires Inv(s) && Step(cap, s, s')
    ensures Inv(s')
  {
    if tenant, w :| ReadStep(s, tenant, w, s') {
    } else if tenant, w, sel :| SelectStep(cap, s, tenant, w, sel, s') {
      SelectKeepsInv(cap, s, tenant, w, sel, s');
    } else if i, status :| MoveStep(s, i, status, s') {
      MoveKeepsInv(s, i, status, s');
    } else {
      var r :| s' == Arrived(s, r) && Less(FLOOR, KeyOf(r)) && AfterLive(s, r);
      ArrivalKeepsInv(s, r);
    }
  }

  lemma {:induction false} StepsKeepInv(cap: nat, states: seq<Log>, k: nat)
    requires Steps(cap, states) && Inv(states[0]) && k < |states|
    ensures Inv(states[k])
  {
    if k > 0 {
      StepsKeepInv(cap, states, k - 1);
      assert Step(cap, states[k - 1], states[k - 1 + 1]);
      StepKeepsInv(cap, states[k - 1], states[k]);
    }
  }

  lemma RunInv(cap: nat, states: seq<Log>)
    requires Run(cap, states)
    ensures Inv(states[|states| - 1])
  {
    StepsKeepInv(cap, states, |states| - 1);
  }

  // ---------- coverage ----------

  /** The receipt is in some submitted batch of its tenant. */
  ghost predicate Covered(s: Log, r: Row)
  {
    exists i :: 0 <= i < |s.batches| && SubmittedFor(s.batches[i], r.tenantId) && r in s.batches[i].sealed
  }

  /** Some submitted batch of the tenant ends at or after the receipt. */
  ghost predicate BelowWater(s: Log, r: Row)
  {
    exists i :: 0 <= i < |s.batches| && SubmittedFor(s.batches[i], r.tenantId) && AtMost(KeyOf(r), s.batches[i].Hi())
  }

  /** The receipts in submitted batches are exactly those up to the highest submitted end. */
  ghost predicate Covers(s: Log)
  {
    forall r :: r in s.rows ==> (Covered(s, r) <==> BelowWater(s, r))
  }

  lemma {:induction false} CoveredBelow(s: Log, r: Row, i: nat)
    requires Inv(s) && r in s.rows && i < |s.batches|
    requires SubmittedFor(s.batches[i], r.tenantId) && AtMost(KeyOf(r), s.batches[i].Hi())
    ensures Covered(s, r)
  {
    var b := s.batches[i];
    assert b in s.batches && Exact(s.rows, b);
    if !Less(b.after, KeyOf(r)) {
      Order(b.after, KeyOf(r), b.after);
      assert Known(s.batches, i, b.tenant, b.after);
      var j :| 0 <= j < i && SubmittedFor(s.batches[j], b.tenant) && s.batches[j].Hi() == b.after;
      CoveredBelow(s, r, j);
    }
  }

  lemma InvCovers(s: Log)
    requires Inv(s)
    ensures Covers(s)
  {
    forall r | r in s.rows
      ensures Covered(s, r) <==> BelowWater(s, r)
    {
      if Covered(s, r) {
        var i :| 0 <= i < |s.batches| && SubmittedFor(s.batches[i], r.tenantId) && r in s.batches[i].sealed;
        assert s.batches[i] in s.batches && Exact(s.rows, s.batches[i]);
      }
      if BelowWater(s, r) {
        var i :| 0 <= i < |s.batches| && SubmittedFor(s.batches[i], r.tenantId) && AtMost(KeyOf(r), s.batches[i].Hi());
        CoveredBelow(s, r, i);
      }
    }
  }

  /**
   Coverage: in every state of every run, the receipts held by a tenant's submitted
   batches are exactly those up to the highest submitted end, without a gap.
   */
  lemma Coverage(cap: nat, states: seq<Log>)
    requires Run(cap, states)
    ensures Covers(states[|states| - 1])
  {
    RunInv(cap, states);
    InvCovers(states[|states| - 1]);
  }

  /** Coverage holds in this state and in whatever the worker and later orderly arrivals make of it. */
  ghost predicate CoversForever(cap: nat, s: Log)
  {
    forall states :: Steps(cap, states) && states[0] == s ==> Covers(states[|states| - 1])
  }

  /** The condition on arrivals is exact: in every reachable state it decides whether coverage survives the receipt. */
  lemma CoverageIff(cap: nat, states: seq<Log>, r: Row)
    requires Run(cap, states) && r !in states[|states| - 1].rows && Less(FLOOR, KeyOf(r))
    ensures CoversForever(cap, Arrived(states[|states| - 1], r)) <==> AfterLive(states[|states| - 1], r)
  {
    var s := states[|states| - 1];
    RunInv(cap, states);
    if AfterLive(s, r) {
      ArrivalKeepsInv(s, r);
      forall later | Steps(cap, later) && later[0] == Arrived(s, r)
        ensures Covers(later[|later| - 1])
      {
        StepsKeepInv(cap, later, |later| - 1);
        InvCovers(later[|later| - 1]);
      }
    } else {
      var later := GapFollows(cap, s, r);
      assert Steps(cap, later);
    }
  }

  /** Otherwise the worker submits the batch that ends at or after the receipt, which then lies in a gap. */
  lemma GapFollows(cap: nat, s: Log, r: Row) returns (states: seq<Log>)
    requires Inv(s) && r !in s.rows && !AfterLive(s, r)
    ensures Steps(cap, states) && states[0] == Arrived(s, r) && !Covers(states[|states| - 1])
  {
    var i := LiveAbove(s, r);
    states := SubmitLive(cap, Arrived(s, r), i);
    GapAt(s, r, i, states[|states| - 1]);
  }

  lemma LiveAbove(s: Log, r: Row) returns (i: nat)
    requires !AfterLive(s, r)
    ensures i < |s.batches| && s.batches[i].tenant == r.tenantId && Live(s.batches[i]) && s.batches[i].sealed != []
    ensures AtMost(KeyOf(r), s.batches[i].Hi())
  {
    var b :| b in s.batches && b.tenant == r.tenantId && Live(b) && b.sealed != [] && !Less(b.Hi(), KeyOf(r));
    i :| 0 <= i < |s.batches| && s.batches[i] == b;
    Order(b.Hi(), KeyOf(r), b.Hi());
  }

  /** A live batch can be submitted by the worker alone. */
  lemma SubmitLive(cap: nat, s: Log, i: nat) returns (states: seq<Log>)
    requires i < |s.batches| && Live(s.batches[i])
    ensures Steps(cap, states) && states[0] == s && states[|states| - 1] == WithStatus(s, i, Submitted)
  {
    var status := s.batches[i].status;
    if status == Submitted {
      assert WithStatus(s, i, Submitted).batches == s.batches;
      states := [s];
    } else if status == Pending {
      states := OneMove(cap, s, i, Submitted);
    } else {
      var first := OneMove(cap, s, i, Pending);
      var second := OneMove(cap, WithStatus(s, i, Pending), i, Submitted);
      states := Joined(cap, first, second);
    }
  }

  lemma OneMove(cap: nat, s: Log, i: nat, status: Status) returns (states: seq<Log>)
    requires i < |s.batches| && Moves(s.batches[i].status, status)
    ensures Steps(cap, states) && states[0] == s && states[|states| - 1] == WithStatus(s, i, status)
  {
    assert MoveStep(s, i, status, WithStatus(s, i, status));
    states := [s, WithStatus(s, i, status)];
  }

  lemma GapAt(s: Log, r: Row, i: nat, t: Log)
    requires Inv(s) && r !in s.rows && i < |s.batches| == |t.batches| && t.rows == s.rows + {r}
    requires forall j :: 0 <= j < |s.batches| ==> t.batches[j].sealed == s.batches[j].sealed
    requires SubmittedFor(t.batches[i], r.tenantId) && AtMost(KeyOf(r), t.batches[i].Hi())
    ensures !Covers(t)
  {
    assert BelowWater(t, r);
    forall j | 0 <= j < |t.batches|
      ensures r !in t.batches[j].sealed
    {
      assert s.batches[j] in s.batches;
    }
  }

  /** In every state of every run, the range query between the bounds of a live batch returns what was sealed. */
  lemma RunRebuild(cap: nat, states: seq<Log>, b: Batch, out: seq<Row>)
    requires Run(cap, states) && b in states[|states| - 1].batches && Live(b) && b.sealed != []
    requires IsRange(out, states[|states| - 1].rows, b.tenant, b.Lo(), b.Hi())
    ensures out == b.sealed
  {
    var rows := states[|states| - 1].rows;
    RunInv(cap, states);
    assert Exact(rows, b);
    assert b.sealed[0] in b.sealed;
    forall r
      ensures r in out <==> r in b.sealed
    {
      Order(b.after, b.Lo(), KeyOf(r));
      if r in b.sealed {
        var i :| 0 <= i < |b.sealed| && b.sealed[i] == r;
        assert i > 0 ==> Less(b.Lo(), KeyOf(b.sealed[i]));
      }
    }
    SortedUnique(out, b.sealed);
  }

  /**
   The leaves rebuilt in any state of any run are the sealed ones without the audit
   head, so they are all of them exactly when the batch committed no head.
   */
  lemma RunRebuiltLeaves<L>(
    cap: nat, states: seq<Log>, b: Batch, out: seq<Row>, leaf: Row -> L, head: Option<L>)
    requires Run(cap, states) && b in states[|states| - 1].batches && Live(b) && b.sealed != []
    requires IsRange(out, states[|states| - 1].rows, b.tenant, b.Lo(), b.Hi())
    ensures RebuiltLeaves(leaf, out) == SealedLeaves(leaf, b.sealed, head)[..|b.sealed|]
    ensures RebuiltLeaves(leaf, out) == SealedLeaves(leaf, b.sealed, head) <==> head.None?
  {
    RunRebuild(cap, states, b, out);
    RebuiltLeavesComplete(leaf, b.sealed, head);
  }

  // ---------- progress ----------

  /** The tenant's receipts after w up to hi. */
  ghost function Between(rows: set<Row>, tenant: Text, w: Key, hi: Key): set<Row>
  {
    set r | r in rows && r.tenantId == tenant && Less(w, KeyOf(r)) && AtMost(KeyOf(r), hi)
  }

  lemma {:induction false} SortedCardinality(s: seq<Row>)
    requires StrictlySorted(s)
    ensures |set r | r in s| == |s|
  {
    if s == [] {
      assert (set r | r in s) == {};
    } else {
      SortedCardinality(s[1..]);
      forall r
        ensures r in s[1..] <==> r in s && r != s[0]
      {
        TailMembers(s, r);
      }
      assert (set r | r in s) == (set r | r in s[1..]) + {s[0]};
    }
  }

  /**
   A pass extends the coverage beyond the highest submitted end exactly when there
   is a receipt beyond it and fewer than `cap` receipts lie between the watermark
   used and that end.  With the highest end itself as watermark none do.
   */
  lemma PassAdvancesIff(cap: nat, rows: set<Row>, tenant: Text, w: Key, top: Key, sel: seq<Row>)
    requires IsSelection(sel, rows, tenant, w, cap) && AtMost(w, top) && sel != []
    ensures Less(top, KeyOf(sel[|sel| - 1])) <==>
              && (exists r :: r in rows && r.tenantId == tenant && Less(top, KeyOf(r)))
              && |Between(rows, tenant, w, top)| < cap
  {
    var last := sel[|sel| - 1];
    var picked := set r | r in sel;
    var gap := Between(rows, tenant, w, top);
    SortedCardinality(sel);
    assert last in sel;
    forall r: Row
      ensures r in sel <==> r in rows && r.tenantId == tenant && Less(w, KeyOf(r)) && AtMost(KeyOf(r), KeyOf(last))
    {
      SelectionIsInterval(sel, rows, tenant, w, cap, r);
    }
    Order(top, KeyOf(last), top);
    if Less(top, KeyOf(last)) {
      forall r | r in gap
        ensures r in picked - {last}
      {
        Order(KeyOf(r), top, KeyOf(last));
        Order(KeyOf(last), KeyOf(r), top);
      }
      SubsetCardinality(gap, picked - {last});
    } else {
      forall r | r in picked
        ensures r in gap
      {
        Order(KeyOf(r), KeyOf(last), top);
      }
      SubsetCardinality(picked, gap);
      forall r | r in rows && r.tenantId == tenant && Less(top, KeyOf(r))
        ensures |sel| == cap
      {
        Order(w, top, KeyOf(r));
        Order(KeyOf(last), top, KeyOf(r));
        Order(KeyOf(r), KeyOf(last), KeyOf(r));
        assert r !in sel;
      }
    }
  }

  lemma {:induction false} SubsetCardinality(a: set<Row>, b: set<Row>)
    requires a <= b
    ensures |a| <= |b|
  {
    if a != {} {
      var x :| x in a;
      SubsetCardinality(a - {x}, b - {x});
    }
  }

  // ---------- receipts that arrive late ----------

  /** Steps with no condition on where a new receipt sorts. */
  ghost predicate LooseStep(cap: nat, s: Log, s': Log)
  {
    PassStep(cap, s, s') || exists r :: s' == Arrived(s, r) && Less(FLOOR, KeyOf(r))
  }

  ghost predicate LooseSteps(cap: nat, states: seq<Log>)
  {
    |states| > 0 && forall k :: 0 <= k < |states| - 1 ==> LooseStep(cap, states[k], states[k + 1])
  }

  lemma {:induction false} SubmittedPersists(cap: nat, states: seq<Log>, m: nat, k: nat, i: nat)
    requires LooseSteps(cap, states) && m <= k < |states| && i < |states[m].batches|
    requires states[m].batches[i].status == Submitted
    ensures i < |states[k].batches| && states[k].batches[i] == states[m].batches[i]
  {
    if m < k {
      SubmittedPersists(cap, states, m, k - 1, i);
      assert LooseStep(cap, states[k - 1], states[k - 1 + 1]);
      SubmittedStays(cap, states[k - 1], states[k], i);
    }
  }

  lemma SubmittedStays(cap: nat, s: Log, s': Log, i: nat)
    requires LooseStep(cap, s, s') && i < |s.batches| && s.batches[i].status == Submitted
    ensures i < |s'.batches| && s'.batches[i] == s.batches[i]
  {
    if j, status :| MoveStep(s, j, status, s') {
      assert j != i;
    }
  }

  /**
   A receipt at or below the end of a submitted batch is not selected by any pass that
   reads its watermark later, unless another submitted batch that ends in the same
   second ends below the receipt.  For an earlier second there is no such exception.
   */
  lemma LateReceiptNeverSelected(
    cap: nat, states: seq<Log>, m: nat, k: nat, i: nat, r: Row, w: Key, rows: set<Row>, sel: seq<Row>)
    requires LooseSteps(cap, states) && m <= k < |states| && i < |states[m].batches|
    requires SubmittedFor(states[m].batches[i], r.tenantId) && AtMost(KeyOf(r), states[m].batches[i].Hi())
    requires forall j :: 0 <= j < |states[k].batches| && SubmittedFor(states[k].batches[j], r.tenantId)
                         && states[k].batches[j].Hi().createdAt == states[m].batches[i].Hi().createdAt == r.createdAt
                         ==> AtMost(KeyOf(r), states[k].batches[j].Hi())
    requires IsWatermark(states[k], r.tenantId, w) && IsSelection(sel, rows, r.tenantId, w, cap)
    ensures r !in sel
  {
    SubmittedPersists(cap, states, m, k, i);
    var b := states[k].batches[i];
    assert SubmittedFor(b, r.tenantId) && b.Hi().createdAt <= w.createdAt;
    Order(w, KeyOf(r), w);
    assert AtMost(KeyOf(r), w);
  }

  // ---------- runs put together from passes ----------

  /** A whole pass by itself. */
  function AfterPass(s: Log, tenant: Text, w: Key, sel: seq<Row>, status: Status): Log
  {
    s.(marks := s.marks + {(tenant, w)}, batches := s.batches + [Batch(tenant, w, sel, status)])
  }

  /** The steps of a pass up to its pending row. */
  lemma PassToPending(cap: nat, s: Log, tenant: Text, w: Key, sel: seq<Row>) returns (states: seq<Log>)
    requires IsWatermark(s, tenant, w) && IsSelection(sel, s.rows, tenant, w, cap) && sel != []
    ensures Steps(cap, states) && states[0] == s && states[|states| - 1] == AfterPass(s, tenant, w, sel, Pending)
  {
    var s1 := s.(marks := s.marks + {(tenant, w)});
    var s2, s3 := AfterPass(s, tenant, w, sel, Selected), AfterPass(s, tenant, w, sel, Pending);
    assert ReadStep(s, tenant, w, s1);
    assert SelectStep(cap, s1, tenant, w, sel, s2);
    assert s3.batches == s2.batches[|s.batches| := Batch(tenant, w, sel, Pending)];
    assert MoveStep(s2, |s.batches|, Pending, s3);
    states := [s, s1, s2, s3];
  }

  /** A whole pass from watermark to status. */
  lemma PassSteps(cap: nat, s: Log, tenant: Text, w: Key, sel: seq<Row>, status: Status) returns (states: seq<Log>)
    requires IsWatermark(s, tenant, w) && IsSelection(sel, s.rows, tenant, w, cap) && sel != []
    requires Moves(Pending, status)
    ensures Steps(cap, states) && states[0] == s && states[|states| - 1] == AfterPass(s, tenant, w, sel, status)
  {
    var before := PassToPending(cap, s, tenant, w, sel);
    var pending, done := AfterPass(s, tenant, w, sel, Pending), AfterPass(s, tenant, w, sel, status);
    assert done.batches == pending.batches[|s.batches| := Batch(tenant, w, sel, status)];
    assert MoveStep(pending, |s.batches|, status, done);
    states := Joined(cap, before, [pending, done]);
  }

  lemma Joined(cap: nat, a: seq<Log>, b: seq<Log>) returns (states: seq<Log>)
    requires Steps(cap, a) && Steps(cap, b) && a[|a| - 1] == b[0]
    ensures Steps(cap, states) && states[0] == a[0] && states[|states| - 1] == b[|b| - 1]
    ensures states == a + b[1..]
  {
    states := a + b[1..];
    forall k | 0 <= k < |states| - 1
      ensures Step(cap, states[k], states[k + 1])
    {
      assert k >= |a| - 1 ==> states[k] == b[k + 1 - |a|] && states[k + 1] == b[k + 1 - |a| + 1];
    }
  }

  // ---------- three runs ----------

  /** Three receipts of one tenant in key order. */
  ghost predicate InOrder(a: Row, b: Row, c: Row)
  {
    && a.tenantId == b.tenantId == c.tenantId
    && Less(FLOOR, KeyOf(a)) && Less(KeyOf(a), KeyOf(b)) && Less(KeyOf(b), KeyOf(c))
  }

  lemma InOrderFacts(a: Row, b: Row, c: Row)
    requires InOrder(a, b, c)
    ensures Less(KeyOf(a), KeyOf(c)) && Less(FLOOR, KeyOf(b)) && Less(FLOOR, KeyOf(c))
    ensures !Less(KeyOf(a), KeyOf(a)) && !Less(KeyOf(b), KeyOf(a)) && !Less(KeyOf(c), KeyOf(b))
    ensures a != b && b != c && a != c
  {
    Order(FLOOR, KeyOf(a), KeyOf(b));
    Order(KeyOf(a), KeyOf(b), KeyOf(c));
    Order(KeyOf(b), KeyOf(c), KeyOf(b));
    Order(FLOOR, KeyOf(b), KeyOf(c));
    Order(KeyOf(a), KeyOf(c), KeyOf(a));
  }

  /**
   Sorting after the submitted batches is not enough.  Receipts a and c are in a
   pending batch when b arrives between them; the batch is submitted, b stays behind,
   and no pass that reads its watermark afterwards selects it.
   */
  lemma PendingGapWitness(a: Row, b: Row, c: Row) returns (states: seq<Log>)
    requires InOrder(a, b, c)
    ensures LooseSteps(2, states) && states[0] == Log({a, c}, {}, []) && Initial(states[0])
    ensures var s := states[|states| - 1];
            && s == AfterPass(Log({a, b, c}, {}, []), a.tenantId, FLOOR, [a, c], Submitted)
            && BelowWater(s, b) && !Covered(s, b)
            && forall w :: IsWatermark(s, a.tenantId, w) ==> !Less(w, KeyOf(b))
  {
    InOrderFacts(a, b, c);
    var tenant, start := a.tenantId, Log({a, c}, {}, []);
    var before := PassToPending(2, start, tenant, FLOOR, [a, c]);
    var s0 := AfterPass(start, tenant, FLOOR, [a, c], Pending);
    var s1 := Arrived(s0, b);
    var s2 := AfterPass(Log({a, b, c}, {}, []), tenant, FLOOR, [a, c], Submitted);
    assert s1.rows == {a, b, c};
    assert MoveStep(s1, 0, Submitted, s2);
    states := before + [s1, s2];
    forall k | 0 <= k < |states| - 1
      ensures LooseStep(2, states[k], states[k + 1])
    {
      assert k + 1 < |before| ==> Step(2, before[k], before[k + 1]);
      assert k == |before| - 1 ==> states[k] == s0 && states[k + 1] == s1;
      assert k == |before| ==> states[k] == s1 && states[k + 1] == s2;
    }
    assert SubmittedFor(s2.batches[0], tenant) && s2.batches[0].Hi() == KeyOf(c);
  }

  /** The likely case: three receipts of one second, the late one with the middle random id. */
  lemma SameSecondGap(second: i64) returns (a: Row, b: Row, c: Row, states: seq<Log>)
    requires second > 0
    ensures a.createdAt == b.createdAt == c.createdAt == second && InOrder(a, b, c)
    ensures LooseSteps(2, states) && Initial(states[0])
    ensures BelowWater(states[|states| - 1], b) && !Covered(states[|states| - 1], b)
  {
    a := Row([97], [], [], [], [], [], [], [], [], second, [], [], []);
    b, c := a.(receiptId := [98]), a.(receiptId := [99]);
    states := PendingGapWitness(a, b, c);
  }

  /** If the pending batch fails instead, the next pass takes the late receipt along. */
  lemma FailedPassRecovers(a: Row, b: Row, c: Row) returns (states: seq<Log>)
    requires InOrder(a, b, c)
    ensures Steps(2, states)
    ensures states[0] == AfterPass(Log({a, b, c}, {}, []), a.tenantId, FLOOR, [a, c], Failed)
    ensures Covered(states[|states| - 1], b)
  {
    InOrderFacts(a, b, c);
    var s := AfterPass(Log({a, b, c}, {}, []), a.tenantId, FLOOR, [a, c], Failed);
    states := PassSteps(2, s, a.tenantId, FLOOR, [a, b], Submitted);
    assert SubmittedFor(states[|states| - 1].batches[1], a.tenantId);
  }

  /** Receipts of one tenant and one second in key order, one more than two batches hold. */
  ghost predicate Crowd(rows: seq<Row>, cap: nat)
  {
    && cap > 0 && |rows| == 2 * cap + 1 && StrictlySorted(rows) && Less(FLOOR, KeyOf(rows[0]))
    && forall i :: 0 <= i < |rows| ==> rows[i].tenantId == rows[0].tenantId && rows[i].createdAt == rows[0].createdAt
  }

  ghost function Members(rows: seq<Row>): set<Row>
  {
    set r | r in rows
  }

  /** The rows before position i of a sorted listing sort at or before the one at i - 1, the others after it. */
  lemma SplitAt(rows: seq<Row>, i: nat, j: nat)
    requires StrictlySorted(rows) && 0 < i <= |rows| && j < |rows|
    ensures j < i ==> !Less(KeyOf(rows[i - 1]), KeyOf(rows[j]))
    ensures j >= i ==> Less(KeyOf(rows[i - 1]), KeyOf(rows[j]))
  {
    Order(KeyOf(rows[i - 1]), KeyOf(rows[j]), KeyOf(rows[i - 1]));
  }

  /** A slice of a sorted listing is the selection after the row before it. */
  lemma SliceIsSelection(rows: seq<Row>, tenant: Text, w: Key, lo: nat, cap: nat)
    requires StrictlySorted(rows) && cap > 0 && lo + cap <= |rows|
    requires forall i :: 0 <= i < |rows| ==> rows[i].tenantId == tenant
    requires forall j :: 0 <= j < |rows| ==> (Less(w, KeyOf(rows[j])) <==> j >= lo)
    ensures IsSelection(rows[lo..lo + cap], Members(rows), tenant, w, cap)
  {
    var sel := rows[lo..lo + cap];
    assert forall i :: 0 <= i < cap ==> sel[i] == rows[lo + i];
    forall j | lo <= j < lo + cap
      ensures rows[j] in sel
    {
      assert sel[j - lo] == rows[j];
    }
    forall r | r in Members(rows) && Less(w, KeyOf(r)) && r !in sel
      ensures forall s :: s in sel ==> Less(KeyOf(s), KeyOf(r))
    {
      var j :| 0 <= j < |rows| && rows[j] == r;
    }
  }

  /** The two selections of the run below. */
  lemma CrowdSelections(rows: seq<Row>, cap: nat)
    requires Crowd(rows, cap)
    ensures IsSelection(rows[..cap], Members(rows), rows[0].tenantId, FLOOR, cap)
    ensures IsSelection(rows[cap..2 * cap], Members(rows), rows[0].tenantId, KeyOf(rows[cap - 1]), cap)
    ensures forall j :: 0 <= j < |rows| ==> Less(FLOOR, KeyOf(rows[j]))
  {
    forall j | 0 <= j < |rows|
      ensures Less(FLOOR, KeyOf(rows[j])) && (Less(KeyOf(rows[cap - 1]), KeyOf(rows[j])) <==> j >= cap)
    {
      Order(FLOOR, KeyOf(rows[0]), KeyOf(rows[j]));
      SplitAt(rows, cap, j);
    }
    SliceIsSelection(rows, rows[0].tenantId, FLOOR, 0, cap);
    SliceIsSelection(rows, rows[0].tenantId, KeyOf(rows[cap - 1]), cap, cap);
    assert rows[0..0 + cap] == rows[..cap] && rows[cap..cap + cap] == rows[cap..2 * cap];
  }

  /** The first batch was anchored, and then the second, any number of times. */
  ghost predicate Tied(s: Log, rows: seq<Row>, cap: nat)
    requires Crowd(rows, cap)
  {
    var tenant := rows[0].tenantId;
    && s.rows == Members(rows) && |s.batches| > 0
    && s.batches[0] == Batch(tenant, FLOOR, rows[..cap], Submitted)
    && forall j :: 0 < j < |s.batches| ==>
         s.batches[j] == Batch(tenant, KeyOf(rows[cap - 1]), rows[cap..2 * cap], Submitted)
  }

  lemma LastNotSliced(rows: seq<Row>, lo: nat, hi: nat)
    requires StrictlySorted(rows) && lo <= hi < |rows|
    ensures rows[|rows| - 1] !in rows[lo..hi]
  {
    var last := |rows| - 1;
    forall i | lo <= i < hi
      ensures rows[i] != rows[last]
    {
      Order(KeyOf(rows[i]), KeyOf(rows[last]), KeyOf(rows[i]));
    }
  }

  lemma TiedFacts(s: Log, rows: seq<Row>, cap: nat)
    requires Crowd(rows, cap) && Tied(s, rows, cap)
    ensures IsWatermark(s, rows[0].tenantId, KeyOf(rows[cap - 1])) && !Covered(s, rows[2 * cap])
  {
    var first := s.batches[0];
    assert SubmittedFor(first, rows[0].tenantId) && first.Hi() == KeyOf(rows[cap - 1]);
    LastNotSliced(rows, 0, cap);
    LastNotSliced(rows, cap, 2 * cap);
  }

  lemma TiedAgain(s: Log, rows: seq<Row>, cap: nat)
    requires Crowd(rows, cap) && Tied(s, rows, cap)
    ensures Tied(AfterPass(s, rows[0].tenantId, KeyOf(rows[cap - 1]), rows[cap..2 * cap], Submitted), rows, cap)
  {
  }

  /**
   The watermark query breaks ties at will.  Whatever the cap, among receipts of one
   second the first batch is anchored, and then n passes in a row read its end and seal
   the second batch, while the last receipt is never covered.
   */
  lemma {:induction false} TieWitness(rows: seq<Row>, cap: nat, n: nat) returns (states: seq<Log>)
    requires Crowd(rows, cap)
    ensures Run(cap, states) && states[0] == Log(Members(rows), {}, [])
    ensures var s := states[|states| - 1];
            Tied(s, rows, cap) && |s.batches| == n + 1 && !Covered(s, rows[2 * cap])
  {
    CrowdSelections(rows, cap);
    var tenant := rows[0].tenantId;
    if n == 0 {
      states := PassSteps(cap, Log(Members(rows), {}, []), tenant, FLOOR, rows[..cap], Submitted);
    } else {
      var before := TieWitness(rows, cap, n - 1);
      var s := before[|before| - 1];
      TiedFacts(s, rows, cap);
      var pass := PassSteps(cap, s, tenant, KeyOf(rows[cap - 1]), rows[cap..2 * cap], Submitted);
      TiedAgain(s, rows, cap);
      states := Joined(cap, before, pass);
    }
    TiedFacts(states[|states| - 1], rows, cap);
  }

  /** Such receipts exist for every cap and second, the source's cap of 10000 among them. */
  lemma {:induction false} CrowdExists(cap: nat, second: i64) returns (rows: seq<Row>)
    requires cap > 0 && second > 0
    ensures Crowd(rows, cap) && rows[0].createdAt == second
  {
    rows := seq(2 * cap + 1, i requires i >= 0 =>
                  Row(Repeat(i + 1), [], [], [], [], [], [], [], [], second, [], [], []));
    forall i, j | 0 <= i < j < |rows|
      ensures Less(KeyOf(rows[i]), KeyOf(rows[j]))
    {
      RepeatOrder(i + 1, j + 1);
    }
  }

  function Repeat(n: nat): (t: Text)
    ensures |t| == n
  {
    if n == 0 then [] else [97] + Repeat(n - 1)
  }

  lemma {:induction false} RepeatOrder(m: nat, n: nat)
    requires m < n
    ensures TextLess(Repeat(m), Repeat(n))
  {
    if m > 0 {
      RepeatOrder(m - 1, n - 1);
      assert Repeat(m)[1..] == Repeat(m - 1) && Repeat(n)[1..] == Repeat(n - 1);
    }
  }

  // ---------- finding the batch of a receipt ----------

  /** The row is in the table, and the receipt's second lies between its first and its last. */
  ghost predicate Spans(b: Batch, r: Row)
  {
    && b.status != Selected && b.tenant == r.tenantId && b.sealed != []
    && b.Lo().createdAt <= r.createdAt <= b.Hi().createdAt
  }

  /** The proof endpoint takes an oldest such row, given when each row was inserted, whatever its status. */
  ghost predicate IsLookup(s: Log, inserted: seq<int>, r: Row, i: nat)
  {
    && i < |s.batches| == |inserted| && Spans(s.batches[i], r)
    && forall j :: 0 <= j < |s.batches| && Spans(s.batches[j], r) ==> inserted[i] <= inserted[j]
  }

  /** The batch begins or ends within the receipt's second, with the receipt on the far side. */
  predicate Splits(b: Batch, r: Row)
    requires b.sealed != []
  {
    || (r.createdAt == b.Lo().createdAt && TextLess(r.receiptId, b.Lo().receiptId))
    || (r.createdAt == b.Hi().createdAt && TextLess(b.Hi().receiptId, r.receiptId))
  }

  /**
   In every run the row that is looked up yields the receipt exactly unless it splits the
   receipt's second; and a live row then holds the receipt and rebuilds to what was sealed.
   */
  lemma LookupFindsIff(cap: nat, states: seq<Log>, inserted: seq<int>, r: Row, i: nat, out: seq<Row>)
    requires Run(cap, states) && r in states[|states| - 1].rows && IsLookup(states[|states| - 1], inserted, r, i)
    requires var s, b := states[|states| - 1], states[|states| - 1].batches[i];
             IsRange(out, s.rows, b.tenant, b.Lo(), b.Hi())
    ensures r in out <==> !Splits(states[|states| - 1].batches[i], r)
    ensures Live(states[|states| - 1].batches[i]) ==> out == states[|states| - 1].batches[i].sealed
  {
    var s := states[|states| - 1];
    var b := s.batches[i];
    TextOrder(r.receiptId, b.Lo().receiptId, r.receiptId);
    TextOrder(r.receiptId, b.Hi().receiptId, r.receiptId);
    if Live(b) {
      assert b in s.batches;
      RunRebuild(cap, states, b, out);
    }
  }

  /**
   More receipts in a second than a batch holds: the first of the second batch is covered,
   but the lookup takes the first batch, which splits its second.
   */
  lemma LookupMissWitness(rows: seq<Row>, cap: nat, inserted: seq<int>) returns (states: seq<Log>)
    requires Crowd(rows, cap) && |inserted| == 2 && inserted[0] < inserted[1]
    ensures Run(cap, states)
    ensures var s := states[|states| - 1];
            && Covered(s, rows[cap]) && IsLookup(s, inserted, rows[cap], 0) && Splits(s.batches[0], rows[cap])
            && forall i: nat :: IsLookup(s, inserted, rows[cap], i) ==> i == 0
  {
    states := TieWitness(rows, cap, 1);
    FirstSplits(states[|states| - 1], rows, cap, inserted);
    SecondCovers(states[|states| - 1], rows, cap);
  }

  lemma FirstSplits(s: Log, rows: seq<Row>, cap: nat, inserted: seq<int>)
    requires Crowd(rows, cap) && Tied(s, rows, cap) && |s.batches| == |inserted| == 2 && inserted[0] < inserted[1]
    ensures IsLookup(s, inserted, rows[cap], 0) && Splits(s.batches[0], rows[cap])
    ensures forall i: nat :: IsLookup(s, inserted, rows[cap], i) ==> i == 0
  {
    var first, r := s.batches[0], rows[cap];
    assert first.Lo() == KeyOf(rows[0]) && first.Hi() == KeyOf(rows[cap - 1]);
    assert Less(KeyOf(rows[cap - 1]), KeyOf(r)) && Spans(first, r);
  }

  lemma SecondCovers(s: Log, rows: seq<Row>, cap: nat)
    requires Crowd(rows, cap) && Tied(s, rows, cap) && |s.batches| == 2
    ensures Covered(s, rows[cap])
  {
    var second, r := s.batches[1], rows[cap];
    assert second.sealed[0] == r && SubmittedFor(second, r.tenantId);
  }

  // ---------- the worker ----------

  class Worker {
    var rows: set<Row>
    var batches: seq<Batch>
    ghost var marks: set<(Text, Key)>

    ghost function State(): Log
      reads this
    {
      Log(rows, marks, batches)
    }

    /** One pass: seals the selected receipts with their leaves and then records what the providers answered. */
    method AnchorPending<L>(cap: nat, tenant: Text, w: Key, selected: seq<Row>, leaf: Row -> L, head: Option<L>,
                            btc: Provider, sol: Provider)
      returns (leaves: seq<L>)
      requires IsWatermark(State(), tenant, w) && IsSelection(selected, rows, tenant, w, cap)
      modifies this
      ensures selected == [] ==> State() == old(State()) && leaves == []
      ensures selected != [] ==>
                && leaves == SealedLeaves(leaf, selected, head)
                && State() == AfterPass(old(State()), tenant, w, selected, AnchorStatus(btc, sol))
      ensures selected != [] ==>
                exists states :: Steps(cap, states) && states[0] == old(State()) && states[|states| - 1] == State()
    {
      leaves := [];
      if selected == [] {
        return;
      }
      for i := 0 to |selected|
        invariant leaves == RebuiltLeaves(leaf, selected[..i])
        invariant State() == old(State())
      {
        leaves := leaves + [leaf(selected[i])];
        assert leaves == RebuiltLeaves(leaf, selected[..i + 1]);
      }
      assert selected[..|selected|] == selected;
      if head.Some? {
        leaves := leaves + [head.value];
      }
      ghost var states := PassSteps(cap, State(), tenant, w, selected, AnchorStatus(btc, sol));
      var n := |batches|;
      marks := marks + {(tenant, w)};
      batches := batches + [Batch(tenant, w, selected, Pending)];
      batches := batches[n := batches[n].(status := AnchorStatus(btc, sol))];
      assert State() == states[|states| - 1];
    }
  }
}
