/**
 Versioned agent checksums: registration stores version 1 of an agent's inputs,
 every rotation replaces them, updates the agents table and appends one audit row.
 The digest of stored inputs is a parameter.
 */
module ChecksumRotation {

  import opened Bytes

  datatype Inputs = Inputs(
    agentType: Text, canonical: Text, checksum: Text, version: int, createdAt: int, updatedAt: int)

  datatype Audit = Audit(
    agent: Text, from: Text, to: Text, fromInputs: Text, toInputs: Text, reason: Text, actor: Text, ts: int)

  /** The three tables; of an agent's own row only the checksum matters here. */
  datatype Tables = Tables(inputs: map<Text, Inputs>, agents: map<Text, Text>, audit: seq<Audit>)

  type Digest = Text -> Text

  /** A registration with structured inputs, one without (legacy), or a rotation. */
  datatype Event =
    | Registered(agent: Text, agentType: Text, canonical: Text, checksum: Text, now: int)
    | LegacyRegistered(agent: Text, checksum: Text)
    | Rotated(agent: Text, agentType: Text, canonical: Text, checksum: Text, reason: Text, actor: Text, now: int)

  function WithAgent(t: Tables, agent: Text, checksum: Text): Tables
  {
    if agent in t.agents then t else t.(agents := t.agents[agent := checksum])
  }

  function WithInputs(t: Tables, agent: Text, row: Inputs): Tables
  {
    if agent in t.inputs then t else t.(inputs := t.inputs[agent := row])
  }

  function Rotation(sha: Digest, t: Tables, e: Event): Tables
    requires e.Rotated? && e.agent in t.inputs
  {
    var row := t.inputs[e.agent];
    Tables(
      t.inputs[e.agent := Inputs(e.agentType, e.canonical, e.checksum, row.version + 1, row.createdAt, e.now)],
      if e.agent in t.agents then t.agents[e.agent := e.checksum] else t.agents,
      t.audit
      + [Audit(e.agent, row.checksum, e.checksum, sha(row.canonical), sha(e.canonical), e.reason, e.actor, e.now)])
  }

  function After(sha: Digest, t: Tables, e: Event): Tables
  {
    match e
    case Registered(agent, agentType, canonical, checksum, now) =>
      if agent in t.agents then t
      else WithInputs(WithAgent(t, agent, checksum), agent, Inputs(agentType, canonical, checksum, 1, now, now))
    case LegacyRegistered(agent, checksum) => WithAgent(t, agent, checksum)
    case Rotated(agent, _, _, _, _, _, _) => if agent in t.inputs then Rotation(sha, t, e) else t
  }

  // ---------- the operations ----------

  class Database {
    var inputs: map<Text, Inputs>
    var agents: map<Text, Text>
    var audit: seq<Audit>

    ghost function State(): Tables
      reads this
    {
      Tables(inputs, agents, audit)
    }

    constructor ()
      ensures State() == Tables(map[], map[], [])
    {
      inputs, agents, audit := map[], map[], [];
    }

    method InsertAgent(agent: Text, checksum: Text) returns (ok: bool)
      modifies this`agents
      ensures ok <==> agent !in old(agents)
      ensures State() == WithAgent(old(State()), agent, checksum)
    {
      ok := agent !in agents;
      if ok {
        agents := agents[agent := checksum];
      }
    }

    method PersistInputs(agent: Text, agentType: Text, canonical: Text, checksum: Text, now: int) returns (ok: bool)
      modifies this`inputs
      ensures ok <==> agent !in old(inputs)
      ensures State() == WithInputs(old(State()), agent, Inputs(agentType, canonical, checksum, 1, now, now))
    {
      ok := agent !in inputs;
      if ok {
        inputs := inputs[agent := Inputs(agentType, canonical, checksum, 1, now, now)];
      }
    }

    /** The insert into the agents table comes first and a taken id stops the registration. */
    method Register(agent: Text, agentType: Text, canonical: Text, checksum: Text, now: int) returns (ok: bool)
      modifies this
      ensures forall sha: Digest ::
                State() == After(sha, old(State()), Registered(agent, agentType, canonical, checksum, now))
      ensures ok <==> agent !in old(agents) && agent !in old(inputs)
    {
      ok := InsertAgent(agent, checksum);
      if ok {
        ok := PersistInputs(agent, agentType, canonical, checksum, now);
      }
    }

    /** Three writes; an agent without stored inputs is refused and nothing is written. */
    method RotateInputs(
      sha: Digest, agent: Text, agentType: Text, canonical: Text, checksum: Text, reason: Text, actor: Text, now: int)
      returns (version: Option<int>)
      modifies this
      ensures State() == After(sha, old(State()), Rotated(agent, agentType, canonical, checksum, reason, actor, now))
      ensures version == if agent in old(inputs) then Some(old(inputs)[agent].version + 1) else None
      ensures agent in old(inputs) ==>
                var prev := old(inputs)[agent];
                && audit == old(audit)
                   + [Audit(agent, prev.checksum, checksum, sha(prev.canonical), sha(canonical), reason, actor, now)]
                && inputs == old(inputs)
                   [agent := Inputs(agentType, canonical, checksum, prev.version + 1, prev.createdAt, now)]
                && agents.Keys == old(agents).Keys
    {
      if agent !in inputs {
        return None;
      }
      var prev := inputs[agent];
      var prevSha, newSha := sha(prev.canonical), sha(canonical);
      var newVersion := prev.version + 1;
      inputs := inputs[agent := prev.(agentType := agentType, canonical := canonical, checksum := checksum,
                                      version := newVersion, updatedAt := now)];
      if agent in agents {
        agents := agents[agent := checksum];
      }
      audit := audit + [Audit(agent, prev.checksum, checksum, prevSha, newSha, reason, actor, now)];
      return Some(newVersion);
    }
  }

  // ---------- the audit trail of one agent ----------

  function Trail(audit: seq<Audit>, agent: Text): seq<Audit>
  {
    if audit == [] then []
    else
      var before, row := Trail(audit[..|audit| - 1], agent), audit[|audit| - 1];
      if row.agent == agent then before + [row] else before
  }

  lemma TrailStep(audit: seq<Audit>, row: Audit, agent: Text)
    ensures Trail(audit + [row], agent)
            == if row.agent == agent then Trail(audit, agent) + [row] else Trail(audit, agent)
  {
    assert (audit + [row])[..|audit|] == audit;
  }

  /** The rows lead without a gap from one checksum and inputs hash to another. */
  ghost predicate Leads(trail: seq<Audit>, from: Text, fromInputs: Text, to: Text, toInputs: Text)
  {
    if trail == [] then from == to && fromInputs == toInputs
    else
      && trail[0].from == from && trail[0].fromInputs == fromInputs
      && trail[|trail| - 1].to == to && trail[|trail| - 1].toInputs == toInputs
      && forall i :: 0 <= i < |trail| - 1 ==>
           trail[i].to == trail[i + 1].from && trail[i].toInputs == trail[i + 1].fromInputs
  }

  lemma LeadsStep(trail: seq<Audit>, row: Audit, from: Text, fromInputs: Text)
    requires Leads(trail, from, fromInputs, row.from, row.fromInputs)
    ensures Leads(trail + [row], from, fromInputs, row.to, row.toInputs)
  {
    var longer := trail + [row];
    forall i | 0 <= i < |longer| - 1
      ensures longer[i].to == longer[i + 1].from && longer[i].toInputs == longer[i + 1].fromInputs
    {
      assert longer[i] == trail[i];
      assert i + 1 < |trail| ==> longer[i + 1] == trail[i + 1];
    }
  }

  /** An agent registered with these inputs: both tables agree, and the trail accounts for every version. */
  ghost predicate Accounted(sha: Digest, t: Tables, agent: Text, checksum: Text, canonical: Text)
  {
    && agent in t.inputs && agent in t.agents
    && t.agents[agent] == t.inputs[agent].checksum
    && t.inputs[agent].version == 1 + |Trail(t.audit, agent)|
    && Leads(Trail(t.audit, agent), checksum, sha(canonical), t.inputs[agent].checksum, sha(t.inputs[agent].canonical))
  }

  lemma StepAccounted(sha: Digest, t: Tables, e: Event, agent: Text, checksum: Text, canonical: Text)
    requires Accounted(sha, t, agent, checksum, canonical)
    ensures Accounted(sha, After(sha, t, e), agent, checksum, canonical)
  {
    if e.Rotated? && e.agent in t.inputs {
      var row := Rotation(sha, t, e).audit[|t.audit|];
      TrailStep(t.audit, row, agent);
      if e.agent == agent {
        LeadsStep(Trail(t.audit, agent), row, checksum, sha(canonical));
      }
    }
  }

  /** Nothing is known of an agent that is not registered. */
  ghost predicate Unknown(t: Tables, agent: Text)
  {
    agent !in t.inputs && agent !in t.agents && Trail(t.audit, agent) == []
  }

  lemma StepUnknown(sha: Digest, t: Tables, e: Event, agent: Text)
    requires Unknown(t, agent) && (e.agent == agent ==> e.Rotated?)
    ensures Unknown(After(sha, t, e), agent)
  {
    if e.Rotated? && e.agent in t.inputs {
      TrailStep(t.audit, Rotation(sha, t, e).audit[|t.audit|], agent);
    }
  }

  // ---------- runs ----------

  ghost predicate IsRun(sha: Digest, events: seq<Event>, tables: seq<Tables>)
  {
    |tables| == |events| + 1 && forall k :: 0 <= k < |events| ==> StepAt(sha, events, tables, k)
  }

  ghost predicate StepAt(sha: Digest, events: seq<Event>, tables: seq<Tables>, k: nat)
    requires k < |events| < |tables|
  {
    tables[k + 1] == After(sha, tables[k], events[k])
  }

  lemma {:induction false} UnknownBefore(sha: Digest, events: seq<Event>, tables: seq<Tables>, agent: Text, k: nat)
    requires IsRun(sha, events, tables) && Unknown(tables[0], agent) && k <= |events|
    requires forall i :: 0 <= i < k && events[i].agent == agent ==> events[i].Rotated?
    ensures Unknown(tables[k], agent)
  {
    if k > 0 {
      UnknownBefore(sha, events, tables, agent, k - 1);
      assert StepAt(sha, events, tables, k - 1);
      StepUnknown(sha, tables[k - 1], events[k - 1], agent);
    }
  }

  /**
   From its registration on, whatever happens to it and to other agents: version is
   one plus the number of audit rows, these link checksum and inputs hash from the
   registered values to the current ones, and both tables hold the current checksum.
   */
  lemma {:induction false} RotationTrail(sha: Digest, events: seq<Event>, tables: seq<Tables>, r: nat, k: nat)
    requires IsRun(sha, events, tables) && r < k <= |events|
    requires events[r].Registered? && Unknown(tables[0], events[r].agent)
    requires forall i :: 0 <= i < r && events[i].agent == events[r].agent ==> events[i].Rotated?
    ensures Accounted(sha, tables[k], events[r].agent, events[r].checksum, events[r].canonical)
  {
    assert StepAt(sha, events, tables, k - 1);
    if k == r + 1 {
      UnknownBefore(sha, events, tables, events[r].agent, r);
    } else {
      RotationTrail(sha, events, tables, r, k - 1);
      StepAccounted(sha, tables[k - 1], events[k - 1], events[r].agent, events[r].checksum, events[r].canonical);
    }
  }
}
