/**
 Anchoring action receipts in batches: watermark pagination in (created_at,
 receipt_id) order, capped batches, retries, and the later rebuild of a batch from
 its stored bounds.  The receipt table is a set of rows; a query with ORDER BY is
 a strictly sorted sequence of its rows.
 */
module AnchorBatches {
  import opened Bytes
  import opened CanonicalFields

  datatype Row = Row(
    receiptId: Text, actionHash: Text, agentId: Text, ringKeyImageHex: Text, policyVersion: Text, ajwtJti: Text,
    popJkt: Text, status: Text, signature: Text, createdAt: i64, tenantId: Text, ringId: Text, configDigest: Text)

  // ---------- the order of the queries ----------

  datatype Key = Key(createdAt: int, receiptId: Text)

  function KeyOf(r: Row): Key
  {
    Key(r.createdAt, r.receiptId)
  }

  predicate Less(a: Key, b: Key)
  {
    a.createdAt < b.createdAt || (a.createdAt == b.createdAt && TextLess(a.receiptId, b.receiptId))
  }

  predicate AtMost(a: Key, b: Key)
  {
    a == b || Less(a, b)
  }

  lemma Order(a: Key, b: Key, c: Key)
    ensures !Less(a, a)
    ensures a == b || Less(a, b) || Less(b, a)
    ensures Less(a, b) && Less(b, c) ==> Less(a, c)
    ensures Less(a, b) ==> !Less(b, a)
  {
    TextOrder(a.receiptId, b.receiptId, c.receiptId);
    TextOrder(a.receiptId, b.receiptId, a.receiptId);
  }

  predicate StrictlySorted(s: seq<Row>)
  {
    forall i, j :: 0 <= i < j < |s| ==> Less(KeyOf(s[i]), KeyOf(s[j]))
  }

  /** A sorted listing of a set of rows is unique. */
  lemma {:induction false} SortedUnique(s: seq<Row>, t: seq<Row>)
    requires StrictlySorted(s) && StrictlySorted(t)
    requires forall r :: r in s <==> r in t
    ensures s == t
  {
    if s == [] {
      FirstIsMember(t);
    } else {
      assert s[0] in s && s[0] in t;
      FirstSame(s, t);
      assert s == [s[0]] + s[1..] && t == [t[0]] + t[1..];
      forall r
        ensures r in s[1..] <==> r in t[1..]
      {
        TailMembers(s, r);
        TailMembers(t, r);
      }
      SortedUnique(s[1..], t[1..]);
    }
  }

  lemma FirstIsMember(s: seq<Row>)
    ensures s != [] ==> s[0] in s
  {
  }

  lemma TailMembers(s: seq<Row>, r: Row)
    requires s != [] && StrictlySorted(s)
    ensures r in s[1..] <==> r in s && r != s[0]
  {
    assert s == [s[0]] + s[1..];
    if r in s[1..] {
      var i :| 0 <= i < |s[1..]| && s[1..][i] == r;
      assert Less(KeyOf(s[0]), KeyOf(s[i + 1]));
      Order(KeyOf(s[0]), KeyOf(s[0]), KeyOf(s[0]));
    }
  }

  lemma FirstSame(s: seq<Row>, t: seq<Row>)
    requires s != [] && t != [] && StrictlySorted(s) && StrictlySorted(t)
    requires forall r :: r in s <==> r in t
    ensures s[0] == t[0]
  {
    assert t[0] in s && s[0] in t;
    var i :| 0 <= i < |s| && s[i] == t[0];
    var j :| 0 <= j < |t| && t[j] == s[0];
    Order(KeyOf(s[0]), KeyOf(t[0]), KeyOf(s[0]));
  }

  // ---------- the two queries ----------

  /** `WHERE tenant AND key > w ORDER BY key LIMIT cap`. */
  ghost predicate IsSelection(sel: seq<Row>, rows: set<Row>, tenant: Text, w: Key, cap: nat)
  {
    && StrictlySorted(sel) && |sel| <= cap
    && (forall r :: r in sel ==> r in rows && r.tenantId == tenant && Less(w, KeyOf(r)))
    && (forall r :: r in rows && r.tenantId == tenant && Less(w, KeyOf(r)) && r !in sel ==>
          |sel| == cap && forall s :: s in sel ==> Less(KeyOf(s), KeyOf(r)))
  }

  /** `WHERE tenant AND lo <= key <= hi ORDER BY key`. */
  ghost predicate IsRange(out: seq<Row>, rows: set<Row>, tenant: Text, lo: Key, hi: Key)
  {
    && StrictlySorted(out)
    && forall r :: r in out <==> r in rows && r.tenantId == tenant && AtMost(lo, KeyOf(r)) && AtMost(KeyOf(r), hi)
  }

  /** The selection is exactly the rows after the watermark up to its own last row. */
  lemma SelectionIsInterval(sel: seq<Row>, rows: set<Row>, tenant: Text, w: Key, cap: nat, r: Row)
    requires IsSelection(sel, rows, tenant, w, cap) && sel != []
    ensures r in sel <==>
              r in rows && r.tenantId == tenant && Less(w, KeyOf(r)) && AtMost(KeyOf(r), KeyOf(sel[|sel| - 1]))
  {
    var last := sel[|sel| - 1];
    assert last in sel;
    if r in sel {
      var i :| 0 <= i < |sel| && sel[i] == r;
      assert i < |sel| - 1 ==> Less(KeyOf(sel[i]), KeyOf(last));
    } else if r in rows && r.tenantId == tenant && Less(w, KeyOf(r)) {
      assert Less(KeyOf(last), KeyOf(r));
      Order(KeyOf(last), KeyOf(r), KeyOf(last));
    }
  }

  /**
   Rebuilding a batch: the range query between the stored bounds returns exactly
   the sealed selection, in order, if no receipt of the tenant was inserted
   between the bounds and none disappeared since.
   */
  lemma RebuildReturnsSelection(sel: seq<Row>, rows: set<Row>, later: set<Row>, out: seq<Row>, tenant: Text, w: Key,
                                cap: nat)
    requires IsSelection(sel, rows, tenant, w, cap) && sel != []
    requires IsRange(out, later, tenant, KeyOf(sel[0]), KeyOf(sel[|sel| - 1]))
    requires forall r: Row ::
               r.tenantId == tenant && AtMost(KeyOf(sel[0]), KeyOf(r)) && AtMost(KeyOf(r), KeyOf(sel[|sel| - 1]))
               ==> (r in later <==> r in rows)
    ensures out == sel
  {
    var lo, hi := KeyOf(sel[0]), KeyOf(sel[|sel| - 1]);
    forall r
      ensures r in out <==> r in sel
    {
      SelectionIsInterval(sel, rows, tenant, w, cap, r);
      assert sel[0] in sel;
      Order(w, lo, KeyOf(r));
      if r in sel {
        var i :| 0 <= i < |sel| && sel[i] == r;
        assert i > 0 ==> Less(lo, KeyOf(sel[i]));
      }
    }
    SortedUnique(out, sel);
  }

  // ---------- leaves ----------

  datatype AuditHead = AuditHead(seqNo: i64, entryHash: Text)

  function LeafValues(r: Row): seq<Text>
  {
    [r.tenantId, r.receiptId, r.actionHash, r.agentId, r.ringKeyImageHex, r.policyVersion, r.ajwtJti, r.popJkt,
     r.status, r.signature, IntText(r.createdAt), r.ringId, r.configDigest]
  }

  const LEAF_NAMES := ["tenant_id", "receipt_id", "action_hash", "agent_id", "ring_key_image_hex", "policy_version",
                       "ajwt_jti", "pop_jkt", "status", "signature", "created_at", "ring_id", "config_digest"]

  /** Field lengths the encoder accepts. */
  ghost predicate LeafEncodable(r: Row)
  {
    forall v :: v in LeafValues(r) ==> Fits(v)
  }

  /** The bytes a receipt leaf is the hash of. */
  function LeafPayload(r: Row): Text
    requires LeafEncodable(r)
  {
    NamedFit("sauron.action-anchor-leaf.v2", LEAF_NAMES, LeafValues(r));
    Encode(Ascii("sauron.action-anchor-leaf.v2"), Named(LEAF_NAMES, LeafValues(r)))
  }

  function HeadValues(tenant: Text, head: AuditHead): seq<Text>
  {
    [tenant, IntText(head.seqNo), head.entryHash]
  }

  const HEAD_NAMES := ["tenant_id", "audit_seq", "audit_entry_hash"]

  /** The bytes the audit-head leaf is the hash of. */
  function HeadPayload(tenant: Text, head: AuditHead): Text
    requires Fits(tenant) && Fits(head.entryHash)
  {
    I64TextLength(head.seqNo);
    NamedFit("sauron.audit-head-leaf.v1", HEAD_NAMES, HeadValues(tenant, head));
    Encode(Ascii("sauron.audit-head-leaf.v1"), Named(HEAD_NAMES, HeadValues(tenant, head)))
  }

  /** A receipt leaf commits every field of the row. */
  lemma LeafPayloadInjective(a: Row, b: Row)
    requires LeafEncodable(a) && LeafEncodable(b) && LeafPayload(a) == LeafPayload(b)
    ensures a == b
  {
    var u, v := LeafValues(a), LeafValues(b);
    NamedFit("sauron.action-anchor-leaf.v2", LEAF_NAMES, u);
    NamedFit("sauron.action-anchor-leaf.v2", LEAF_NAMES, v);
    var d := Ascii("sauron.action-anchor-leaf.v2");
    EncodeInjective(d, Named(LEAF_NAMES, u), d, Named(LEAF_NAMES, v));
    NamedValues(LEAF_NAMES, u, LEAF_NAMES, v);
    assert u[0] == v[0] && u[1] == v[1] && u[2] == v[2] && u[3] == v[3] && u[4] == v[4] && u[5] == v[5] && u[6] == v[6];
    assert u[7] == v[7] && u[8] == v[8] && u[9] == v[9] && u[10] == v[10] && u[11] == v[11] && u[12] == v[12];
    IntTextInjective(a.createdAt, b.createdAt);
  }

  /** A receipt leaf and an audit-head leaf are never computed from the same bytes. */
  lemma LeafKindsDisjoint(r: Row, tenant: Text, head: AuditHead)
    requires LeafEncodable(r) && Fits(tenant) && Fits(head.entryHash)
    ensures LeafPayload(r) != HeadPayload(tenant, head)
  {
    I64TextLength(head.seqNo);
    var d, e := "sauron.action-anchor-leaf.v2", "sauron.audit-head-leaf.v1";
    NamedFit(d, LEAF_NAMES, LeafValues(r));
    NamedFit(e, HEAD_NAMES, HeadValues(tenant, head));
    EncodeInjective(Ascii(d), Named(LEAF_NAMES, LeafValues(r)), Ascii(e), Named(HEAD_NAMES, HeadValues(tenant, head)));
    assert |Ascii(d)| != |Ascii(e)|;
  }

  /** The leaves of a batch: one for each receipt, then one for the audit head if there is one. */
  function SealedLeaves<L>(leaf: Row -> L, sel: seq<Row>, head: Option<L>): seq<L>
  {
    RebuiltLeaves(leaf, sel) + if head.Some? then [head.value] else []
  }

  /** The leaves the proof endpoint rebuilds: receipts only. */
  function RebuiltLeaves<L>(leaf: Row -> L, out: seq<Row>): (leaves: seq<L>)
    ensures |leaves| == |out| && forall i :: 0 <= i < |out| ==> leaves[i] == leaf(out[i])
  {
    seq(|out|, i requires 0 <= i < |out| => leaf(out[i]))
  }

  /** The rebuilt leaf list equals the sealed one exactly when no audit head was committed. */
  lemma RebuiltLeavesComplete<L>(leaf: Row -> L, sel: seq<Row>, head: Option<L>)
    ensures RebuiltLeaves(leaf, sel) == SealedLeaves(leaf, sel, head)[..|sel|]
    ensures RebuiltLeaves(leaf, sel) == SealedLeaves(leaf, sel, head) <==> head.None?
  {
    if head.Some? {
      assert |SealedLeaves(leaf, sel, head)| == |sel| + 1;
    } else {
      assert RebuiltLeaves(leaf, sel) + [] == RebuiltLeaves(leaf, sel);
    }
  }
}
