/**
 The delegation part of agent registration: a child names its parent, and must
 belong to the same user and tenant, sit one level deeper and keep within the
 parent's scopes.  Rows are never deleted; revocation only sets a flag.
 */
module Delegation {

  import opened Bytes

  /** A parsed intent; text that is not JSON counts as null. */
  datatype Json =
    | Null | Bool(b: bool) | Num(n: real) | Str(s: string) | Arr(items: seq<Json>) | Obj(fields: map<string, Json>)

  const MAX_DELEGATION_DEPTH := 5

  // ---------- scopes ----------

  function Get(v: Json, name: string): Option<Json>
  {
    if v.Obj? && name in v.fields then Some(v.fields[name]) else None
  }

  /** The strings of an array, in order. */
  function StringsOf(items: seq<Json>): (r: seq<string>)
    ensures forall s :: s in r <==> Str(s) in items
  {
    if items == [] then []
    else (if items[0].Str? then [items[0].s] else []) + StringsOf(items[1..])
  }

  predicate HasArray(v: Option<Json>)
  {
    v.Some? && v.value.Arr?
  }

  function NestedScope(intent: Json): Option<Json>
  {
    var c := Get(intent, "constraints");
    if c.Some? then Get(c.value, "scope") else None
  }

  function ScopesFromIntent(intent: Json): seq<string>
  {
    var top, nested, action := Get(intent, "scope"), NestedScope(intent), Get(intent, "action");
    if HasArray(top) then StringsOf(top.value.items)
    else if HasArray(nested) then StringsOf(nested.value.items)
    else if action.Some? && action.value.Str? && action.value.s != "" then [action.value.s]
    else []
  }

  ghost function ScopeSet(intent: Json): set<string>
  {
    set s | s in ScopesFromIntent(intent)
  }

  /** Which list is read: a top-level `scope` array wins even when it holds no string. */
  lemma ScopeSources(intent: Json, s: string)
    ensures HasArray(Get(intent, "scope")) ==> (s in ScopeSet(intent) <==> Str(s) in Get(intent, "scope").value.items)
    ensures !HasArray(Get(intent, "scope")) && HasArray(NestedScope(intent)) ==>
              (s in ScopeSet(intent) <==> Str(s) in NestedScope(intent).value.items)
    ensures !HasArray(Get(intent, "scope")) && !HasArray(NestedScope(intent)) ==>
              (s in ScopeSet(intent) <==> s != "" && Get(intent, "action") == Some(Str(s)))
  {
  }

  /** Following the names of the path from v leads to x. */
  ghost predicate Leads(v: Json, path: seq<string>, x: Json)
  {
    if path == [] then v == x
    else v.Obj? && path[0] in v.fields && Leads(v.fields[path[0]], path[1..], x)
  }

  ghost predicate ListAt(v: Json, path: seq<string>)
  {
    exists items :: Leads(v, path, Arr(items))
  }

  ghost predicate ListedAt(v: Json, path: seq<string>, s: string)
  {
    exists items :: Leads(v, path, Arr(items)) && Str(s) in items
  }

  lemma OneName(v: Json, name: string, x: Json)
    ensures Leads(v, [name], x) <==> Get(v, name) == Some(x)
  {
    assert [name][1..] == [];
  }

  lemma TwoNames(v: Json, name: string, inner: string, x: Json)
    ensures Leads(v, [name, inner], x) <==> Get(v, name).Some? && Get(Get(v, name).value, inner) == Some(x)
  {
    assert [name, inner][1..] == [inner];
    if Get(v, name).Some? {
      OneName(v.fields[name], inner, x);
    }
  }

  lemma OneList(v: Json, name: string, s: string)
    ensures ListAt(v, [name]) <==> HasArray(Get(v, name))
    ensures ListedAt(v, [name], s) <==> HasArray(Get(v, name)) && Str(s) in Get(v, name).value.items
  {
    forall items
      ensures Leads(v, [name], Arr(items)) <==> Get(v, name) == Some(Arr(items))
    {
      OneName(v, name, Arr(items));
    }
    if HasArray(Get(v, name)) {
      assert Leads(v, [name], Arr(Get(v, name).value.items));
    }
  }

  lemma NestedList(v: Json, s: string)
    ensures ListAt(v, ["constraints", "scope"]) <==> HasArray(NestedScope(v))
    ensures ListedAt(v, ["constraints", "scope"], s)
            <==> HasArray(NestedScope(v)) && Str(s) in NestedScope(v).value.items
  {
    forall items
      ensures Leads(v, ["constraints", "scope"], Arr(items)) <==> NestedScope(v) == Some(Arr(items))
    {
      TwoNames(v, "constraints", "scope", Arr(items));
    }
    if HasArray(NestedScope(v)) {
      assert Leads(v, ["constraints", "scope"], Arr(NestedScope(v).value.items));
    }
  }

  /** A scope is read from `scope`, or else `constraints.scope`, or else is the `action`. */
  lemma ScopeIff(intent: Json, s: string)
    ensures s in ScopeSet(intent) <==>
              if ListAt(intent, ["scope"]) then ListedAt(intent, ["scope"], s)
              else if ListAt(intent, ["constraints", "scope"]) then ListedAt(intent, ["constraints", "scope"], s)
              else s != "" && Leads(intent, ["action"], Str(s))
  {
    ScopeSources(intent, s);
    OneList(intent, "scope", s);
    NestedList(intent, s);
    OneName(intent, "action", Str(s));
  }

  datatype ScopeError = NoParentScopes | NoChildScopes | NotAllowed(scope: string)

  /** Both sides must name scopes, and every child scope must be one of the parent's. */
  method AssertChildScopesSubsetOfParent(parent: Json, child: Json) returns (err: Option<ScopeError>)
    ensures err == None <==> ScopeSet(parent) != {} && ScopeSet(child) != {} && ScopeSet(child) <= ScopeSet(parent)
    ensures err == Some(NoParentScopes) <==> ScopeSet(parent) == {}
    ensures err == Some(NoChildScopes) <==> ScopeSet(parent) != {} && ScopeSet(child) == {}
    ensures err.Some? && err.value.NotAllowed? ==> err.value.scope in ScopeSet(child) - ScopeSet(parent)
  {
    var allowed, wanted := ScopesFromIntent(parent), ScopesFromIntent(child);
    assert allowed != [] ==> allowed[0] in ScopeSet(parent);
    assert wanted != [] ==> wanted[0] in ScopeSet(child);
    if allowed == [] {
      return Some(NoParentScopes);
    }
    if wanted == [] {
      return Some(NoChildScopes);
    }
    for i := 0 to |wanted|
      invariant forall j :: 0 <= j < i ==> wanted[j] in allowed
    {
      if wanted[i] !in allowed {
        assert wanted[i] in ScopeSet(child) && wanted[i] !in ScopeSet(parent);
        return Some(NotAllowed(wanted[i]));
      }
    }
    return None;
  }

  // ---------- the registry ----------

  datatype Agent = Agent(
    tenant: string, human: string, intent: Json, parent: Option<string>, depth: int, revoked: bool)

  type Table = map<string, Agent>

  datatype Error =
    | ParentNotFound | ParentRevoked | OtherUser | Scope(e: ScopeError) | TooDeep | Conflict

  datatype Placement = Placed(parent: Option<string>, depth: int) | Refused(error: Error)

  /** The parent a registration may be attached to, as the agents table stands. */
  ghost predicate MayDelegate(t: Table, parent: string, tenant: string, human: string, intent: Json)
  {
    && parent in t && t[parent].tenant == tenant && !t[parent].revoked && t[parent].human == human
    && ScopeSet(t[parent].intent) != {} && ScopeSet(intent) != {} && ScopeSet(intent) <= ScopeSet(t[parent].intent)
    && t[parent].depth + 1 <= MAX_DELEGATION_DEPTH
  }

  /** Parent and depth of a new agent: none and 0, or a parent that may delegate and one more than its depth. */
  ghost predicate PlacedBy(t: Table, tenant: string, human: string, intent: Json, p: Option<string>, depth: int)
  {
    match p
    case None => depth == 0
    case Some(parent) => MayDelegate(t, parent, tenant, human, intent) && depth == t[parent].depth + 1
  }

  class Registry {
    var agents: Table

    constructor ()
      ensures agents == map[]
    {
      agents := map[];
    }

    /** The parent checks; an empty parent id asks for a root agent. */
    method CheckParent(parentId: string, tenant: string, human: string, intent: Json) returns (p: Placement)
      ensures p.Placed? ==> PlacedBy(agents, tenant, human, intent, p.parent, p.depth)
      ensures p.Placed? <==> parentId == "" || MayDelegate(agents, parentId, tenant, human, intent)
      ensures p.Placed? ==> p.parent == if parentId == "" then None else Some(parentId)
      ensures parentId == "" ==> p == Placed(None, 0)
      ensures parentId != "" ==>
                var known := parentId in agents && agents[parentId].tenant == tenant;
                && (p == Refused(ParentNotFound) <==> !known)
                && (p == Refused(ParentRevoked) <==> known && agents[parentId].revoked)
                && (p == Refused(OtherUser) <==>
                      known && !agents[parentId].revoked && agents[parentId].human != human)
                && (known && !agents[parentId].revoked && agents[parentId].human == human ==>
                      var has, wants := ScopeSet(agents[parentId].intent), ScopeSet(intent);
                      && (p == Refused(Scope(NoParentScopes)) <==> has == {})
                      && (p == Refused(Scope(NoChildScopes)) <==> has != {} && wants == {})
                      && (p == Refused(TooDeep) <==>
                            has != {} && wants != {} && wants <= has && agents[parentId].depth >= 5)
                      && (p.Refused? && p.error.Scope? && p.error.e.NotAllowed? ==> p.error.e.scope in wants - has))
                && (p.Placed? ==> p.depth == agents[parentId].depth + 1 <= 5)
    {
      if parentId == "" {
        return Placed(None, 0);
      }
      if parentId !in agents || agents[parentId].tenant != tenant {
        return Refused(ParentNotFound);
      }
      var parent := agents[parentId];
      if parent.revoked {
        return Refused(ParentRevoked);
      }
      if parent.human != human {
        return Refused(OtherUser);
      }
      var err := AssertChildScopesSubsetOfParent(parent.intent, intent);
      if err.Some? {
        return Refused(Scope(err.value));
      }
      var d := parent.depth + 1;
      if d > MAX_DELEGATION_DEPTH {
        return Refused(TooDeep);
      }
      return Placed(Some(parentId), d);
    }

    /** The insert of an earlier placement; it fails on an id that is taken. */
    method Insert(id: string, tenant: string, human: string, intent: Json, parent: Option<string>, depth: int)
      returns (ok: bool)
      modifies this
      ensures ok <==> id !in old(agents)
      ensures agents == if !ok then old(agents)
                        else old(agents)[id := Agent(tenant, human, intent, parent, depth, false)]
    {
      ok := id !in agents;
      if ok {
        agents := agents[id := Agent(tenant, human, intent, parent, depth, false)];
      }
    }

    /** Revocation by the owner: the row must match in id, user and tenant. */
    method Revoke(id: string, human: string, tenant: string) returns (found: bool)
      modifies this
      ensures found <==> id in old(agents) && old(agents)[id].human == human && old(agents)[id].tenant == tenant
      ensures agents == if found then Revoked(old(agents), id) else old(agents)
    {
      found := id in agents && agents[id].human == human && agents[id].tenant == tenant;
      if found {
        agents := agents[id := agents[id].(revoked := true)];
      }
    }
  }

  function Revoked(t: Table, id: string): Table
    requires id in t
  {
    t[id := t[id].(revoked := true)]
  }

  // ---------- runs ----------

  /**
   A registration inserts at its position what was checked on an earlier table, so
   other registrations and revocations may come between check and insert.
   */
  datatype Event =
    | Register(
        id: string, tenant: string, human: string, intent: Json, parent: Option<string>, depth: int, checkedAt: nat)
    | Revocation(id: string)

  ghost predicate StepAt(events: seq<Event>, tables: seq<Table>, k: nat)
    requires k < |events| < |tables|
  {
    var t, t' := tables[k], tables[k + 1];
    match events[k]
    case Register(id, tenant, human, intent, parent, depth, checkedAt) =>
      && checkedAt <= k && PlacedBy(tables[checkedAt], tenant, human, intent, parent, depth)
      && t' == if id in t then t else t[id := Agent(tenant, human, intent, parent, depth, false)]
    case Revocation(id) => t' == if id in t then Revoked(t, id) else t
  }

  ghost predicate IsRun(events: seq<Event>, tables: seq<Table>)
  {
    && |tables| == |events| + 1 && tables[0] == map[]
    && forall k :: 0 <= k < |events| ==> StepAt(events, tables, k)
  }

  predicate SameButRevoked(a: Agent, b: Agent)
  {
    a.(revoked := false) == b.(revoked := false) && (a.revoked ==> b.revoked)
  }

  /** Rows stay, and change at most from active to revoked. */
  lemma {:induction false} RowsStay(events: seq<Event>, tables: seq<Table>, i: nat, j: nat, id: string)
    requires IsRun(events, tables) && i <= j < |tables| && id in tables[i]
    ensures id in tables[j] && SameButRevoked(tables[i][id], tables[j][id])
  {
    if i < j {
      RowsStay(events, tables, i, j - 1, id);
      assert StepAt(events, tables, j - 1);
    }
  }

  /** An agent is a root of depth 0 or hangs one below a parent with its user, tenant and wider scopes. */
  ghost predicate Attached(t: Table, id: string)
    requires id in t
  {
    var a := t[id];
    0 <= a.depth <= MAX_DELEGATION_DEPTH &&
    match a.parent
    case None => a.depth == 0
    case Some(p) =>
      p in t && a.depth == t[p].depth + 1 && a.tenant == t[p].tenant && a.human == t[p].human
      && {} < ScopeSet(a.intent) <= ScopeSet(t[p].intent)
  }

  ghost predicate Forest(t: Table)
  {
    forall id {:trigger Attached(t, id)} :: id in t ==> Attached(t, id)
  }

  lemma {:induction false} RunForest(events: seq<Event>, tables: seq<Table>, k: nat)
    requires IsRun(events, tables) && k < |tables|
    ensures Forest(tables[k])
  {
    if k > 0 {
      RunForest(events, tables, k - 1);
      assert StepAt(events, tables, k - 1);
      forall id | id in tables[k]
        ensures Attached(tables[k], id)
      {
        RunAttached(events, tables, k, id);
      }
    }
  }

  lemma RunAttached(events: seq<Event>, tables: seq<Table>, k: nat, id: string)
    requires IsRun(events, tables) && 0 < k < |tables| && Forest(tables[k - 1]) && id in tables[k]
    ensures Attached(tables[k], id)
  {
    assert StepAt(events, tables, k - 1);
    var e := events[k - 1];
    if id in tables[k - 1] {
      assert Attached(tables[k - 1], id);
      assert SameButRevoked(tables[k - 1][id], tables[k][id]);
    } else if e.parent.Some? {
      RunForest(events, tables, e.checkedAt);
      RowsStay(events, tables, e.checkedAt, k, e.parent.value);
      assert Attached(tables[e.checkedAt], e.parent.value);
    }
  }

  /** In every run the parent of a registration was active and not too deep on the table it was checked against. */
  lemma ParentWasActive(events: seq<Event>, tables: seq<Table>, k: nat)
    requires IsRun(events, tables) && k < |events| && events[k].Register? && events[k].parent.Some?
    ensures events[k].checkedAt <= k
    ensures var t, p := tables[events[k].checkedAt], events[k].parent.value;
            p in t && !t[p].revoked && 0 <= t[p].depth < 5
  {
    assert StepAt(events, tables, k);
    RunForest(events, tables, events[k].checkedAt);
    assert Attached(tables[events[k].checkedAt], events[k].parent.value);
  }

  lemma RunExtended(events: seq<Event>, tables: seq<Table>, e: Event, t: Table)
    requires IsRun(events, tables) && StepAt(events + [e], tables + [t], |events|)
    ensures IsRun(events + [e], tables + [t])
  {
    forall i | 0 <= i < |events + [e]|
      ensures StepAt(events + [e], tables + [t], i)
    {
      assert i < |events| ==> StepAt(events, tables, i);
    }
  }

  /** Delegation reaches the maximum depth: a chain of n agents, each under the one before, for every n up to six. */
  lemma {:induction false} ChainReaches(n: nat) returns (events: seq<Event>, tables: seq<Table>, last: string)
    requires 1 <= n <= MAX_DELEGATION_DEPTH + 1
    ensures IsRun(events, tables) && |last| == n
    ensures var t := tables[|tables| - 1];
            && last in t && t[last].depth == n - 1 && !t[last].revoked
            && t[last].tenant == t[last].human == "u" && t[last].intent == Obj(map["action" := Str("a")])
            && forall id :: id in t ==> |id| <= n
  {
    var intent := Obj(map["action" := Str("a")]);
    if n == 1 {
      last := "a";
      events := [Register(last, "u", "u", intent, None, 0, 0)];
      tables := [map[], map[last := Agent("u", "u", intent, None, 0, false)]];
      assert StepAt(events, tables, 0);
    } else {
      var before, ts, parent := ChainReaches(n - 1);
      var k, t := |before|, ts[|ts| - 1];
      last := parent + "a";
      var e := Register(last, "u", "u", intent, Some(parent), n - 1, k);
      assert "a" in ScopeSet(intent);
      assert PlacedBy(t, "u", "u", intent, Some(parent), n - 1);
      events, tables := before + [e], ts + [t[last := Agent("u", "u", intent, Some(parent), n - 1, false)]];
      assert StepAt(events, tables, k);
      RunExtended(before, ts, e, tables[k + 1]);
    }
  }

  // ---------- ancestors ----------

  /** The n-th ancestor, if there is one. */
  ghost function Up(t: Table, id: string, n: nat): Option<string>
    requires Forest(t) && id in t
    ensures Up(t, id, n).Some? ==> Up(t, id, n).value in t
    decreases n
  {
    if n == 0 then Some(id)
    else
      assert Attached(t, id);
      if t[id].parent == None then None else Up(t, t[id].parent.value, n - 1)
  }

  /** b is n levels below a, with a's user and tenant and no scope that a lacks. */
  ghost predicate Inherits(a: Agent, b: Agent, n: int)
  {
    a.depth == b.depth - n && a.tenant == b.tenant && a.human == b.human && ScopeSet(b.intent) <= ScopeSet(a.intent)
  }

  lemma InheritsStep(a: Agent, b: Agent, c: Agent, n: int)
    requires Inherits(a, b, n) && Inherits(b, c, 1)
    ensures Inherits(a, c, n + 1)
  {
  }

  lemma ParentInherits(t: Table, id: string)
    requires Forest(t) && id in t && t[id].parent.Some?
    ensures t[id].parent.value in t && Inherits(t[t[id].parent.value], t[id], 1)
  {
    assert Attached(t, id);
  }

  lemma UpStep(t: Table, id: string, n: nat)
    requires Forest(t) && id in t && n > 0 && t[id].parent.Some?
    ensures t[id].parent.value in t && Up(t, id, n) == Up(t, t[id].parent.value, n - 1)
  {
    assert Attached(t, id);
  }

  lemma DepthStep(t: Table, id: string)
    requires Forest(t) && id in t
    ensures t[id].depth >= 0 && (t[id].parent.None? <==> t[id].depth == 0)
  {
    assert Attached(t, id);
    assert t[id].parent.Some? ==> Attached(t, t[id].parent.value);
  }

  /** Going up n levels succeeds exactly for n up to the depth, and everything is inherited on the way. */
  lemma {:induction false} Ancestors(t: Table, id: string, n: nat)
    requires Forest(t) && id in t
    ensures Up(t, id, n).Some? <==> n <= t[id].depth
    ensures n <= t[id].depth ==> Inherits(t[Up(t, id, n).value], t[id], n)
    decreases n
  {
    DepthStep(t, id);
    if n > 0 && t[id].parent.Some? {
      var p := t[id].parent.value;
      ParentInherits(t, id);
      Ancestors(t, p, n - 1);
      UpStep(t, id, n);
      if n <= t[id].depth {
        InheritsStep(t[Up(t, p, n - 1).value], t[p], t[id], n - 1);
      }
    }
  }

  lemma DepthZeroIsRoot(t: Table, id: string)
    requires Forest(t) && id in t && t[id].depth == 0
    ensures t[id].parent == None
  {
    assert Attached(t, id);
    assert t[id].parent.Some? ==> Attached(t, t[id].parent.value);
  }

  /** Every agent reaches a root within five steps, no agent is its own ancestor, and ancestors only allow more. */
  lemma DelegationForest(events: seq<Event>, tables: seq<Table>, k: nat, id: string, n: nat)
    requires IsRun(events, tables) && k < |tables| && id in tables[k]
    ensures Forest(tables[k]) && 0 <= tables[k][id].depth <= MAX_DELEGATION_DEPTH
    ensures Up(tables[k], id, n).Some? <==> n <= tables[k][id].depth
    ensures n == tables[k][id].depth ==> tables[k][Up(tables[k], id, n).value].parent == None
    ensures n <= tables[k][id].depth ==> Inherits(tables[k][Up(tables[k], id, n).value], tables[k][id], n)
    ensures n > 0 ==> Up(tables[k], id, n) != Some(id)
  {
    RunForest(events, tables, k);
    var t := tables[k];
    assert Attached(t, id);
    Ancestors(t, id, n);
    if n == t[id].depth {
      DepthZeroIsRoot(t, Up(t, id, n).value);
    }
  }
}
