/**
 The receipt table and the per-tenant hash chain over it: appending at the head,
 the keyless verifier, runs of appends, and what a verified chain is evidence of.
 The digest of a receipt is a parameter throughout.  The last part fixes it to a
 hash of the chain payload; nothing assumes that the hash is free of collisions.
 */
module ReceiptChain {
  import opened Bytes
  import opened Receipts

  /** Rows in the order they were inserted; receipt ids are unique. */
  type Table = seq<Receipt>

  type Digest = Receipt -> Text

  // ---------- queries ----------

  predicate Chained(r: Receipt, tenant: Text)
  {
    r.tenantId == tenant && r.seqNo > 0
  }

  /** The tenant's chained rows, in table order. */
  function ChainedRows(t: Table, tenant: Text): (rows: seq<Receipt>)
    ensures forall r :: r in rows <==> r in t && Chained(r, tenant)
  {
    if t == [] then []
    else
      var rows := ChainedRows(t[..|t| - 1], tenant);
      assert t == t[..|t| - 1] + [t[|t| - 1]];
      if Chained(t[|t| - 1], tenant) then rows + [t[|t| - 1]] else rows
  }

  function InsertBySeq(r: Receipt, s: seq<Receipt>): (out: seq<Receipt>)
    ensures |out| == |s| + 1
    ensures forall x :: x in out <==> x == r || x in s
  {
    if s == [] || r.seqNo < s[0].seqNo then [r] + s
    else
      assert s == [s[0]] + s[1..];
      [s[0]] + InsertBySeq(r, s[1..])
  }

  function SortBySeq(s: seq<Receipt>): (out: seq<Receipt>)
    ensures |out| == |s|
    ensures forall x :: x in out <==> x in s
  {
    if s == [] then []
    else
      assert s == s[..|s| - 1] + [s[|s| - 1]];
      InsertBySeq(s[|s| - 1], SortBySeq(s[..|s| - 1]))
  }

  /** `WHERE tenant_id = ? AND seq > 0 ORDER BY seq ASC`. */
  function ChainOf(t: Table, tenant: Text): (rows: seq<Receipt>)
    ensures forall r :: r in rows <==> r in t && Chained(r, tenant)
  {
    SortBySeq(ChainedRows(t, tenant))
  }

  predicate Ascending(s: seq<Receipt>)
  {
    forall i, j :: 0 <= i < j < |s| ==> s[i].seqNo <= s[j].seqNo
  }

  lemma {:induction false} InsertAscending(r: Receipt, s: seq<Receipt>)
    requires Ascending(s)
    ensures Ascending(InsertBySeq(r, s))
  {
    if s != [] && r.seqNo >= s[0].seqNo {
      InsertAscending(r, s[1..]);
      var rest := InsertBySeq(r, s[1..]);
      forall j | 0 <= j < |rest|
        ensures s[0].seqNo <= rest[j].seqNo
      {
        assert rest[j] in rest;
      }
    }
  }

  lemma {:induction false} SortAscending(s: seq<Receipt>)
    ensures Ascending(SortBySeq(s))
  {
    if s != [] {
      SortAscending(s[..|s| - 1]);
      InsertAscending(s[|s| - 1], SortBySeq(s[..|s| - 1]));
    }
  }

  lemma {:induction false} SortKeepsAll(s: seq<Receipt>)
    ensures multiset(SortBySeq(s)) == multiset(s)
  {
    if s != [] {
      SortKeepsAll(s[..|s| - 1]);
      InsertKeepsAll(s[|s| - 1], SortBySeq(s[..|s| - 1]));
      assert s == s[..|s| - 1] + [s[|s| - 1]];
    }
  }

  lemma {:induction false} InsertKeepsAll(r: Receipt, s: seq<Receipt>)
    ensures multiset(InsertBySeq(r, s)) == multiset(s) + multiset{r}
  {
    if s != [] && r.seqNo >= s[0].seqNo {
      InsertKeepsAll(r, s[1..]);
      assert s == [s[0]] + s[1..];
    }
  }

  /** The query lists the tenant's chained rows once each, by ascending number. */
  lemma ChainAscending(t: Table, tenant: Text)
    ensures Ascending(ChainOf(t, tenant)) && multiset(ChainOf(t, tenant)) == multiset(ChainedRows(t, tenant))
  {
    SortAscending(ChainedRows(t, tenant));
    SortKeepsAll(ChainedRows(t, tenant));
  }

  /** `WHERE tenant_id = ? ORDER BY seq DESC LIMIT 1`. */
  function Head(t: Table, tenant: Text): (head: Option<Receipt>)
    ensures head.None? ==> forall r :: r in t ==> r.tenantId != tenant
    ensures head.Some? ==> head.value in t && head.value.tenantId == tenant
    ensures head.Some? ==> forall r :: r in t && r.tenantId == tenant ==> r.seqNo <= head.value.seqNo
  {
    if t == [] then None
    else
      var best, last := Head(t[..|t| - 1], tenant), t[|t| - 1];
      assert t == t[..|t| - 1] + [last];
      if last.tenantId == tenant && (best.None? || last.seqNo > best.value.seqNo) then Some(last) else best
  }

  /** The sequence number and previous hash of the tenant's next receipt. */
  function NextChainPosition(d: Digest, t: Table, tenant: Text): (int, Text)
  {
    match Head(t, tenant)
    case None => (1, [])
    case Some(head) => if head.seqNo == 0 then (1, []) else (head.seqNo + 1, d(head))
  }

  // ---------- the verifier ----------

  datatype ChainCheck = Verified(count: nat) | Broken(at: nat)

  /** The previous hash that position i of a chain has to store. */
  function ExpectedPrev(d: Digest, rows: seq<Receipt>, i: nat): Text
    requires i <= |rows|
  {
    if i == 0 then [] else d(rows[i - 1])
  }

  predicate LinkedAt(d: Digest, rows: seq<Receipt>, i: nat)
    requires i < |rows|
  {
    rows[i].seqNo == i + 1 && rows[i].prevHash == ExpectedPrev(d, rows, i)
  }

  /** Dense from 1, and every row stores the digest of the row before it. */
  predicate Linked(d: Digest, rows: seq<Receipt>)
  {
    forall i :: 0 <= i < |rows| ==> LinkedAt(d, rows, i)
  }

  ghost predicate Follows(d: Digest, rows: seq<Receipt>, i: nat)
    requires 0 < i < |rows|
  {
    rows[i].seqNo == rows[i - 1].seqNo + 1 && rows[i].prevHash == d(rows[i - 1])
  }

  /** A chain starts at 1 with no previous hash, and every later row follows the one before it. */
  lemma LinkedIff(d: Digest, rows: seq<Receipt>)
    ensures Linked(d, rows)
       <==> && (rows != [] ==> rows[0].seqNo == 1 && rows[0].prevHash == [])
            && (forall i :: 0 < i < |rows| ==> Follows(d, rows, i))
  {
    if Linked(d, rows) {
      forall i | 0 < i < |rows|
        ensures Follows(d, rows, i)
      {
        assert LinkedAt(d, rows, i - 1) && LinkedAt(d, rows, i);
      }
      assert rows != [] ==> LinkedAt(d, rows, 0);
    } else if rows != [] && rows[0].seqNo == 1 && rows[0].prevHash == [] {
      var i :| 0 <= i < |rows| && !LinkedAt(d, rows, i);
      FirstBreak(d, rows, i);
    }
  }

  lemma {:induction false} FirstBreak(d: Digest, rows: seq<Receipt>, i: nat)
    requires i < |rows| && rows[0].seqNo == 1 && rows[0].prevHash == [] && !LinkedAt(d, rows, i)
    ensures exists j :: 0 < j < |rows| && !Follows(d, rows, j)
  {
    if i > 0 && Follows(d, rows, i) {
      FirstBreak(d, rows, i - 1);
    }
  }

  /** The verifier accepts exactly the linked chains, counts their rows and otherwise stops at the first break. */
  method VerifyReceiptChain(d: Digest, t: Table, tenant: Text) returns (check: ChainCheck)
    ensures check.Verified? <==> Linked(d, ChainOf(t, tenant))
    ensures check.Verified? ==> check.count == |ChainOf(t, tenant)|
    ensures check.Broken? ==> check.at < |ChainOf(t, tenant)| && !LinkedAt(d, ChainOf(t, tenant), check.at)
                              && forall j :: 0 <= j < check.at ==> LinkedAt(d, ChainOf(t, tenant), j)
  {
    var rows := ChainOf(t, tenant);
    var expectedSeq, expectedPrev, checked := 1, [], 0;
    for i := 0 to |rows|
      invariant expectedSeq == i + 1 && checked == i && expectedPrev == ExpectedPrev(d, rows, i)
      invariant forall j :: 0 <= j < i ==> LinkedAt(d, rows, j)
    {
      var receipt := rows[i];
      if receipt.seqNo != expectedSeq || receipt.prevHash != expectedPrev {
        assert !LinkedAt(d, rows, i);
        return Broken(i);
      }
      expectedPrev := d(receipt);
      expectedSeq := expectedSeq + 1;
      checked := checked + 1;
    }
    return Verified(checked);
  }

  // ---------- appending ----------

  /** The row that inserting `draft` writes: placed at the head of its tenant's chain, then signed. */
  function Placed(d: Digest, t: Table, draft: Receipt, sign: Receipt -> Text): Receipt
    requires NextChainPosition(d, t, draft.tenantId).0 < I64_LIMIT
    requires forall i :: 0 <= i < |t| ==> t[i].seqNo >= 0
  {
    var (n, prev) := NextChainPosition(d, t, draft.tenantId);
    var r := draft.(seqNo := n, prevHash := prev);
    r.(signature := sign(r))
  }

  /** The signing key is applied to the signing payload. */
  ghost predicate Signs(sign: Receipt -> Text, mac: Text -> Text)
  {
    forall r :: Encodable(r) ==> sign(r) == mac(SigningPayload(r))
  }

  /** What `verify_receipt_signature` accepts. */
  ghost predicate Genuine(mac: Text -> Text, r: Receipt)
  {
    Encodable(r) ==> r.signature == mac(SigningPayload(r))
  }

  /** The row is the draft with its place in the chain and its signature filled in. */
  predicate FromDraft(r: Receipt, draft: Receipt)
  {
    draft == r.(seqNo := draft.seqNo, prevHash := draft.prevHash, signature := draft.signature)
  }

  /** An appended row keeps its draft, and its signature verifies on the row as it stands in the table. */
  lemma PlacedIsGenuine(d: Digest, t: Table, draft: Receipt, sign: Receipt -> Text, mac: Text -> Text)
    requires NextChainPosition(d, t, draft.tenantId).0 < I64_LIMIT && forall i :: 0 <= i < |t| ==> t[i].seqNo >= 0
    requires Signs(sign, mac)
    ensures var r := Placed(d, t, draft, sign); FromDraft(r, draft) && Genuine(mac, r)
  {
    var r := Placed(d, t, draft, sign);
    var unsigned := r.(signature := draft.signature);
    if Encodable(r) {
      assert Encodable(unsigned) && SameButSignature(r, unsigned);
      SigningPayloadInjective(r, unsigned);
    }
  }

  /** What every reachable table satisfies: no negative number, and every tenant's chain is linked. */
  ghost predicate Sound(d: Digest, t: Table)
  {
    && (forall i :: 0 <= i < |t| ==> t[i].seqNo >= 0)
    && (forall tenant :: Linked(d, ChainOf(t, tenant)))
  }

  lemma {:induction false} InsertLargest(r: Receipt, s: seq<Receipt>)
    requires forall x :: x in s ==> x.seqNo <= r.seqNo
    ensures InsertBySeq(r, s) == s + [r]
  {
    if s != [] {
      assert s[0] in s && s == [s[0]] + s[1..];
      InsertLargest(r, s[1..]);
    }
  }

  lemma ChainOfAppended(t: Table, r: Receipt, tenant: Text)
    requires Chained(r, tenant) ==> forall x :: x in ChainOf(t, tenant) ==> x.seqNo <= r.seqNo
    ensures ChainOf(t + [r], tenant) == if Chained(r, tenant) then ChainOf(t, tenant) + [r] else ChainOf(t, tenant)
  {
    assert (t + [r])[..|t|] == t;
    var rows := ChainedRows(t, tenant);
    if Chained(r, tenant) {
      assert (rows + [r])[..|rows|] == rows;
      InsertLargest(r, SortBySeq(rows));
    }
  }

  /** The row of a linked chain at a given number is unique. */
  lemma LinkedIndex(d: Digest, rows: seq<Receipt>, x: Receipt)
    requires Linked(d, rows) && x in rows
    ensures 1 <= x.seqNo <= |rows| && rows[x.seqNo - 1] == x
  {
    var j :| 0 <= j < |rows| && rows[j] == x;
    assert LinkedAt(d, rows, j);
  }

  /** In a sound table the head of a tenant is the last row of its chain. */
  lemma HeadIsLast(d: Digest, t: Table, tenant: Text)
    requires Sound(d, t)
    ensures NextChainPosition(d, t, tenant) ==
              (|ChainOf(t, tenant)| + 1, ExpectedPrev(d, ChainOf(t, tenant), |ChainOf(t, tenant)|))
  {
    var rows, head := ChainOf(t, tenant), Head(t, tenant);
    if rows != [] {
      LinkedIndex(d, rows, rows[|rows| - 1]);
      assert LinkedAt(d, rows, |rows| - 1);
      assert rows[|rows| - 1] in rows;
      assert head.value in rows;
      LinkedIndex(d, rows, head.value);
    } else if head.Some? {
      assert head.value !in rows;
      assert head.value in t;
    }
  }

  /** Appending extends the chain of the draft's tenant by one linked row and no other chain. */
  lemma AppendedChain(d: Digest, t: Table, draft: Receipt, sign: Receipt -> Text, tenant: Text)
    requires Sound(d, t) && NextChainPosition(d, t, draft.tenantId).0 < I64_LIMIT
    ensures var r := Placed(d, t, draft, sign);
            ChainOf(t + [r], tenant)
            == if tenant == draft.tenantId then ChainOf(t, tenant) + [r] else ChainOf(t, tenant)
    ensures Linked(d, ChainOf(t + [Placed(d, t, draft, sign)], tenant))
  {
    var r := Placed(d, t, draft, sign);
    var rows := ChainOf(t, tenant);
    HeadIsLast(d, t, draft.tenantId);
    if Chained(r, tenant) {
      forall x | x in rows
        ensures x.seqNo <= r.seqNo
      {
        LinkedIndex(d, rows, x);
      }
      ExtendLinked(d, rows, r);
    }
    ChainOfAppended(t, r, tenant);
  }

  lemma ExtendLinked(d: Digest, rows: seq<Receipt>, r: Receipt)
    requires Linked(d, rows) && r.seqNo == |rows| + 1 && r.prevHash == ExpectedPrev(d, rows, |rows|)
    ensures Linked(d, rows + [r])
  {
    var all := rows + [r];
    forall i | 0 <= i < |all|
      ensures LinkedAt(d, all, i)
    {
      if i < |rows| {
        assert LinkedAt(d, rows, i);
      }
    }
  }

  lemma AppendSound(d: Digest, t: Table, draft: Receipt, sign: Receipt -> Text)
    requires Sound(d, t) && NextChainPosition(d, t, draft.tenantId).0 < I64_LIMIT
    ensures Sound(d, t + [Placed(d, t, draft, sign)])
  {
    HeadIsLast(d, t, draft.tenantId);
    forall tenant
      ensures Linked(d, ChainOf(t + [Placed(d, t, draft, sign)], tenant))
    {
      AppendedChain(d, t, draft, sign, tenant);
    }
  }

  // ---------- runs ----------

  /** A table of receipts written before chaining existed. */
  predicate Legacy(t: Table)
  {
    forall i :: 0 <= i < |t| ==> t[i].seqNo == 0
  }

  lemma {:induction false} LegacyUnchained(t: Table, tenant: Text)
    requires Legacy(t)
    ensures ChainedRows(t, tenant) == []
  {
    if t != [] {
      LegacyUnchained(t[..|t| - 1], tenant);
    }
  }

  lemma LegacySound(d: Digest, t: Table)
    requires Legacy(t)
    ensures Sound(d, t) && forall tenant :: ChainOf(t, tenant) == []
  {
    forall tenant
      ensures ChainOf(t, tenant) == []
    {
      LegacyUnchained(t, tenant);
    }
  }

  /** How many of the drafts are for the tenant. */
  function CountFor(drafts: seq<Receipt>, tenant: Text): nat
  {
    if drafts == [] then 0
    else CountFor(drafts[..|drafts| - 1], tenant) + if drafts[|drafts| - 1].tenantId == tenant then 1 else 0
  }

  /** Every state of a run of appends: `tables[k]` is the table after the first k drafts. */
  ghost predicate Run(d: Digest, sign: Receipt -> Text, tables: seq<Table>, drafts: seq<Receipt>)
  {
    && |tables| == |drafts| + 1 && Legacy(tables[0])
    && forall k :: 0 <= k < |drafts| ==> AppendStep(d, sign, tables[k], drafts[k], tables[k + 1])
  }

  ghost predicate AppendStep(d: Digest, sign: Receipt -> Text, t: Table, draft: Receipt, t': Table)
  {
    && (forall i :: 0 <= i < |t| ==> t[i].seqNo >= 0)
    && NextChainPosition(d, t, draft.tenantId).0 < I64_LIMIT
    && t' == t + [Placed(d, t, draft, sign)]
  }

  /** In every run each append writes its draft, signed, and nothing later changes it. */
  lemma {:induction false} RunRowsGenuine(
    d: Digest, sign: Receipt -> Text, mac: Text -> Text, tables: seq<Table>, drafts: seq<Receipt>, k: nat, n: nat)
    requires Run(d, sign, tables, drafts) && Signs(sign, mac) && k < n <= |drafts|
    ensures var i := |tables[0]| + k;
            |tables[n]| == |tables[0]| + n && FromDraft(tables[n][i], drafts[k]) && Genuine(mac, tables[n][i])
    decreases n
  {
    assert AppendStep(d, sign, tables[n - 1], drafts[n - 1], tables[n - 1 + 1]);
    PlacedIsGenuine(d, tables[n - 1], drafts[n - 1], sign, mac);
    RunLength(d, sign, tables, drafts, n - 1);
    if k < n - 1 {
      RunRowsGenuine(d, sign, mac, tables, drafts, k, n - 1);
    }
  }

  lemma {:induction false} RunLength(d: Digest, sign: Receipt -> Text, tables: seq<Table>, drafts: seq<Receipt>, n: nat)
    requires Run(d, sign, tables, drafts) && n <= |drafts|
    ensures |tables[n]| == |tables[0]| + n
  {
    if n > 0 {
      RunLength(d, sign, tables, drafts, n - 1);
      assert AppendStep(d, sign, tables[n - 1], drafts[n - 1], tables[n - 1 + 1]);
    }
  }

  /**
   After any run of appends, for any mix of tenants and from any legacy rows,
   every chain is dense and linked and as long as the tenant's appends.
   */
  lemma {:induction false} RunKeepsChains(d: Digest, sign: Receipt -> Text, tables: seq<Table>, drafts: seq<Receipt>,
                                          tenant: Text)
    requires Run(d, sign, tables, drafts)
    ensures Sound(d, tables[|drafts|])
    ensures |ChainOf(tables[|drafts|], tenant)| == CountFor(drafts, tenant)
  {
    if drafts == [] {
      LegacySound(d, tables[0]);
    } else {
      var k := |drafts| - 1;
      assert AppendStep(d, sign, tables[k], drafts[k], tables[k + 1]);
      assert Run(d, sign, tables[..k + 1], drafts[..k]) by {
        forall i | 0 <= i < k
          ensures AppendStep(d, sign, tables[..k + 1][i], drafts[..k][i], tables[..k + 1][i + 1])
        {
          assert AppendStep(d, sign, tables[i], drafts[i], tables[i + 1]);
        }
      }
      RunKeepsChains(d, sign, tables[..k + 1], drafts[..k], tenant);
      AppendSound(d, tables[k], drafts[k], sign);
      AppendedChain(d, tables[k], drafts[k], sign, tenant);
    }
  }

  // ---------- evidence ----------

  /**
   Deletions: of the tables holding only rows of a verified one, exactly those
   that keep an initial part of the chain still verify.
   */
  lemma SubTableVerifiesIffPrefix(d: Digest, t: Table, sub: Table, tenant: Text)
    requires Linked(d, ChainOf(t, tenant))
    requires forall r :: r in sub ==> r in t
    ensures Linked(d, ChainOf(sub, tenant)) <==> ChainOf(sub, tenant) <= ChainOf(t, tenant)
  {
    var rows, kept := ChainOf(t, tenant), ChainOf(sub, tenant);
    if Linked(d, kept) {
      forall i | 0 <= i < |kept|
        ensures i < |rows| && kept[i] == rows[i]
      {
        assert kept[i] in kept && LinkedAt(d, kept, i);
        LinkedIndex(d, rows, kept[i]);
      }
      if kept != [] {
        assert LinkedAt(d, kept, |kept| - 1) && kept[|kept| - 1] in kept;
        LinkedIndex(d, rows, kept[|kept| - 1]);
      }
    }
    if kept <= rows {
      forall i | 0 <= i < |kept|
        ensures LinkedAt(d, kept, i)
      {
        assert LinkedAt(d, rows, i);
      }
    }
  }

  /** The digest used by the server: a hash of the chain payload. */
  function PayloadDigest(h: Text -> Text): Digest
  {
    r => if Encodable(r) then h(ChainPayload(r)) else []
  }

  ghost predicate AllEncodable(rows: seq<Receipt>)
  {
    forall i :: 0 <= i < |rows| ==> Encodable(rows[i])
  }

  /** Two different payloads at the same position with the same hash. */
  ghost predicate CollisionAt(h: Text -> Text, a: seq<Receipt>, b: seq<Receipt>, i: nat)
    requires AllEncodable(a) && AllEncodable(b)
  {
    && i < |a| && i < |b|
    && ChainPayload(a[i]) != ChainPayload(b[i])
    && h(ChainPayload(a[i])) == h(ChainPayload(b[i]))
  }

  ghost predicate AgreeBelow(a: seq<Receipt>, b: seq<Receipt>, k: nat)
    requires k <= |a| && k <= |b|
  {
    forall i :: 0 <= i < k ==> SameButSignature(a[i], b[i])
  }

  /** At position i, equal digests mean equal receipts or a collision. */
  lemma DigestAt(h: Text -> Text, a: seq<Receipt>, b: seq<Receipt>, i: nat)
    requires AllEncodable(a) && AllEncodable(b) && i < |a| && i < |b|
    requires PayloadDigest(h)(a[i]) == PayloadDigest(h)(b[i])
    ensures SameButSignature(a[i], b[i]) || CollisionAt(h, a, b, i)
  {
    ChainPayloadInjective(a[i], b[i]);
  }

  /** Going back from position k - 1, equal digests give equal receipts or a clash of digests. */
  lemma {:induction false} TraceBack(d: Digest, a: seq<Receipt>, b: seq<Receipt>, k: nat, clash: nat -> bool)
    requires 0 < k <= |a| && k <= |b| && Linked(d, a) && Linked(d, b)
    requires forall i :: 0 <= i < k && d(a[i]) == d(b[i]) ==> SameButSignature(a[i], b[i]) || clash(i)
    requires d(a[k - 1]) == d(b[k - 1])
    ensures AgreeBelow(a, b, k) || exists i :: clash(i)
  {
    if !clash(k - 1) && k > 1 {
      assert LinkedAt(d, a, k - 1) && LinkedAt(d, b, k - 1);
      TraceBack(d, a, b, k - 1, clash);
    }
  }

  /**
   Edits: two tables that both verify with the same length and the same chain
   hash on the last receipt agree at every position on every field but the
   signature, unless they exhibit a collision of the hash.
   */
  lemma TamperEvidence(h: Text -> Text, t: Table, u: Table, tenant: Text)
    requires AllEncodable(ChainOf(t, tenant)) && AllEncodable(ChainOf(u, tenant))
    requires Linked(PayloadDigest(h), ChainOf(t, tenant)) && Linked(PayloadDigest(h), ChainOf(u, tenant))
    requires var n := |ChainOf(t, tenant)|;
             |ChainOf(u, tenant)| == n
             && (n > 0 ==> PayloadDigest(h)(ChainOf(t, tenant)[n - 1]) == PayloadDigest(h)(ChainOf(u, tenant)[n - 1]))
    ensures AgreeBelow(ChainOf(t, tenant), ChainOf(u, tenant), |ChainOf(t, tenant)|)
            || exists i :: CollisionAt(h, ChainOf(t, tenant), ChainOf(u, tenant), i)
  {
    var a, b := ChainOf(t, tenant), ChainOf(u, tenant);
    if a != [] {
      var clash: nat -> bool := (i: nat) => CollisionAt(h, a, b, i);
      forall i | 0 <= i < |a| && PayloadDigest(h)(a[i]) == PayloadDigest(h)(b[i])
        ensures SameButSignature(a[i], b[i]) || clash(i)
      {
        DigestAt(h, a, b, i);
      }
      TraceBack(PayloadDigest(h), a, b, |a|, clash);
      if !AgreeBelow(a, b, |a|) {
        var i :| clash(i);
        assert CollisionAt(h, a, b, i);
      }
    }
  }
}
