/**
  The agent registry: one map of agents and two indexes over it that every
  operation has to keep in step.  Each method is one whole call; its locks are
  taken and released inside it.
 */
module Registry {
  import opened Wrappers

  /** Ids embed a global counter, which is what makes them unique; the counter stands for the id. */
  type AgentId = nat

  datatype AgentState = Spawned | Idle | Thinking | ToolUse | Waiting | Completed | Error | Cancelled {
    predicate IsTerminal() {
      Completed? || Error? || Cancelled?
    }
  }

  datatype AgentRole = Main | SubAgent | Background | System

  datatype RegisteredAgent = RegisteredAgent(
    id: AgentId, parent: Option<AgentId>, workspace: Option<string>, role: AgentRole,
    state: AgentState, stateChangedAt: int, children: seq<AgentId>)

  type Agents = map<AgentId, RegisteredAgent>

  predicate NoDuplicates(ids: seq<AgentId>) {
    forall i, j :: 0 <= i < j < |ids| ==> ids[i] != ids[j]
  }

  lemma PushNew(ids: seq<AgentId>, id: AgentId)
    requires NoDuplicates(ids) && id !in ids
    ensures NoDuplicates(ids + [id])
  {
  }

  function ListAt<K>(index: map<K, seq<AgentId>>, key: K): seq<AgentId> {
    if key in index then index[key] else []
  }

  /** entry(key).or_default().push(id) */
  function PushAt<K>(index: map<K, seq<AgentId>>, key: K, id: AgentId): map<K, seq<AgentId>> {
    index[key := ListAt(index, key) + [id]]
  }

  /** Vec::retain(|i| i != id) */
  function Without(ids: seq<AgentId>, id: AgentId): (r: seq<AgentId>)
    ensures forall x :: x in r <==> x in ids && x != id
    ensures NoDuplicates(ids) ==> NoDuplicates(r)
  {
    if ids == [] then []
    else if ids[|ids| - 1] == id then Without(ids[..|ids| - 1], id)
    else
      var front := Without(ids[..|ids| - 1], id);
      assert ids == ids[..|ids| - 1] + [ids[|ids| - 1]];
      assert NoDuplicates(ids) ==> NoDuplicates(front + [ids[|ids| - 1]]) by {
        if NoDuplicates(ids) { PushNew(front, ids[|ids| - 1]); }
      }
      front + [ids[|ids| - 1]]
  }

  /** get_mut(key), and if there is a list, retain. */
  function RemoveAt<K>(index: map<K, seq<AgentId>>, key: K, id: AgentId): map<K, seq<AgentId>> {
    if key in index then index[key := Without(index[key], id)] else index
  }

  /** The list kept for w holds exactly the registered agents of that workspace, each once. */
  predicate WorkspaceListOk(agents: Agents, index: map<string, seq<AgentId>>, w: string) {
    && NoDuplicates(ListAt(index, w))
    && (forall id :: id in ListAt(index, w) ==> id in agents && agents[id].workspace == Some(w))
    && (forall id :: id in agents && agents[id].workspace == Some(w) ==> id in ListAt(index, w))
  }

  /** The list kept for a registered p holds exactly the registered agents whose parent is p, each once. */
  predicate ChildListOk(agents: Agents, index: map<AgentId, seq<AgentId>>, p: AgentId) {
    && NoDuplicates(ListAt(index, p))
    && (forall id :: id in ListAt(index, p) ==> id in agents && agents[id].parent == Some(p))
    && (p in agents ==> forall id :: id in agents && agents[id].parent == Some(p) ==> id in ListAt(index, p))
  }

  ghost predicate Consistent(agents: Agents, workspaceAgents: map<string, seq<AgentId>>,
                             children: map<AgentId, seq<AgentId>>, counter: nat)
  {
    && (forall id :: id in agents ==> agents[id].id == id < counter)
    && (forall id :: id in agents && agents[id].parent.Some? ==> agents[id].parent.value < id)
    && (forall p :: p in children ==> p in agents)
    && (forall w :: WorkspaceListOk(agents, workspaceAgents, w))
    && (forall p :: ChildListOk(agents, children, p))
  }

  function Registered(agents: Agents, agent: RegisteredAgent): Agents {
    agents[agent.id := agent]
  }

  /** Storing a new agent and pushing it on both lists it belongs to keeps everything in step. */
  lemma RegisteringKeepsConsistent(agents: Agents, workspaceAgents: map<string, seq<AgentId>>,
                                   children: map<AgentId, seq<AgentId>>, counter: nat, agent: RegisteredAgent)
    requires Consistent(agents, workspaceAgents, children, counter)
    requires agent.id == counter
    requires agent.parent.Some? ==> agent.parent.value in agents
    ensures Consistent(
      Registered(agents, agent),
      if agent.workspace.None? then workspaceAgents else PushAt(workspaceAgents, agent.workspace.value, agent.id),
      if agent.parent.None? then children else PushAt(children, agent.parent.value, agent.id),
      counter + 1)
  {
    var agents' := Registered(agents, agent);
    var ws' := if agent.workspace.None? then workspaceAgents else PushAt(workspaceAgents, agent.workspace.value, agent.id);
    var ch' := if agent.parent.None? then children else PushAt(children, agent.parent.value, agent.id);
    forall w ensures WorkspaceListOk(agents', ws', w) {
      RegisteringKeepsWorkspace(agents, workspaceAgents, counter, agent, w);
    }
    forall p ensures ChildListOk(agents', ch', p) {
      assert ChildListOk(agents, children, p);
      PushNew(ListAt(children, p), agent.id);
    }
  }

  lemma RegisteringKeepsWorkspace(agents: Agents, workspaceAgents: map<string, seq<AgentId>>, counter: nat,
                                  agent: RegisteredAgent, w: string)
    requires WorkspaceListOk(agents, workspaceAgents, w)
    requires agent.id == counter && forall id :: id in agents ==> id < counter
    ensures WorkspaceListOk(
      Registered(agents, agent),
      if agent.workspace.None? then workspaceAgents else PushAt(workspaceAgents, agent.workspace.value, agent.id), w)
  {
    PushNew(ListAt(workspaceAgents, w), agent.id);
  }

  /** Taking an agent out of the map and of all lists keeps everything in step. */
  lemma RemovingKeepsConsistent(agents: Agents, workspaceAgents: map<string, seq<AgentId>>,
                                children: map<AgentId, seq<AgentId>>, counter: nat, id: AgentId)
    requires Consistent(agents, workspaceAgents, children, counter)
    requires id in agents
    ensures Consistent(
      agents - {id},
      if agents[id].workspace.None? then workspaceAgents else RemoveAt(workspaceAgents, agents[id].workspace.value, id),
      (if agents[id].parent.None? then children else RemoveAt(children, agents[id].parent.value, id)) - {id},
      counter)
  {
    var agents' := agents - {id};
    var ws' := if agents[id].workspace.None? then workspaceAgents else RemoveAt(workspaceAgents, agents[id].workspace.value, id);
    var ch' := (if agents[id].parent.None? then children else RemoveAt(children, agents[id].parent.value, id)) - {id};
    forall w ensures WorkspaceListOk(agents', ws', w) {
      assert WorkspaceListOk(agents, workspaceAgents, w);
    }
    forall p ensures ChildListOk(agents', ch', p) {
      assert ChildListOk(agents, children, p);
    }
  }

  /** A change that touches neither parent nor workspace moves no index. */
  lemma UpdatingKeepsConsistent(agents: Agents, workspaceAgents: map<string, seq<AgentId>>,
                                children: map<AgentId, seq<AgentId>>, counter: nat, agent: RegisteredAgent)
    requires Consistent(agents, workspaceAgents, children, counter)
    requires agent.id in agents
    requires agent.parent == agents[agent.id].parent && agent.workspace == agents[agent.id].workspace
    ensures Consistent(agents[agent.id := agent], workspaceAgents, children, counter)
  {
    var agents' := agents[agent.id := agent];
    forall w ensures WorkspaceListOk(agents', workspaceAgents, w) {
      assert WorkspaceListOk(agents, workspaceAgents, w);
    }
    forall p ensures ChildListOk(agents', children, p) {
      assert ChildListOk(agents, children, p);
    }
  }

  /** The agents once `parent` has spawned `id`. */
  function WithChild(agents: Agents, parent: AgentId, id: AgentId, role: AgentRole, now: int): Agents
    requires parent in agents
  {
    agents[id := RegisteredAgent(id, Some(parent), agents[parent].workspace, role, Spawned, now, [])]
          [parent := agents[parent].(children := agents[parent].children + [id])]
  }

  /** Terminal and unchanged since before the cutoff. */
  predicate Expired(agent: RegisteredAgent, cutoff: int) {
    agent.state.IsTerminal() && agent.stateChangedAt < cutoff
  }

  class AgentRegistry {
    var counter: nat
    var agents: Agents
    var workspaceAgents: map<string, seq<AgentId>>
    var children: map<AgentId, seq<AgentId>>

    ghost predicate Valid()
      reads this
    {
      Consistent(agents, workspaceAgents, children, counter)
    }

    constructor ()
      ensures Valid() && agents == map[]
    {
      counter, agents, workspaceAgents, children := 0, map[], map[], map[];
    }

    method RegisterMain(workspace: string, now: int) returns (id: AgentId)
      requires Valid()
      modifies this
      ensures Valid()
      ensures id == old(counter) && id !in old(agents)
      ensures agents == old(agents)[id := RegisteredAgent(id, None, Some(workspace), Main, Spawned, now, [])]
    {
      id := counter;
      var agent := RegisteredAgent(id, None, Some(workspace), Main, Spawned, now, []);
      RegisteringKeepsConsistent(agents, workspaceAgents, children, counter, agent);
      counter := counter + 1;
      agents := agents[id := agent];
      workspaceAgents := PushAt(workspaceAgents, workspace, id);
    }

    method RegisterStandalone(role: AgentRole, now: int) returns (id: AgentId)
      requires Valid()
      modifies this
      ensures Valid()
      ensures id == old(counter) && id !in old(agents)
      ensures agents == old(agents)[id := RegisteredAgent(id, None, None, role, Spawned, now, [])]
    {
      id := counter;
      var agent := RegisteredAgent(id, None, None, role, Spawned, now, []);
      RegisteringKeepsConsistent(agents, workspaceAgents, children, counter, agent);
      counter := counter + 1;
      agents := agents[id := agent];
    }

    /** A sub-agent inherits its parent's workspace; None when the parent is not registered. */
    method SpawnSubAgent(parent: AgentId, role: AgentRole, now: int) returns (r: Option<AgentId>)
      requires Valid()
      modifies this
      ensures Valid()
      ensures r.Some? <==> parent in old(agents)
      ensures r.None? ==> agents == old(agents)
      ensures r.Some? ==> r.value == old(counter) && r.value !in old(agents)
      ensures r.Some? ==> agents == WithChild(old(agents), parent, old(counter), role, now)
      ensures r.Some? ==>
                && agents.Keys == old(agents).Keys + {r.value}
                && agents[r.value].parent == Some(parent) && agents[r.value].workspace == old(agents)[parent].workspace
                && agents[r.value].role == role && agents[r.value].state == Spawned && agents[r.value].children == []
                && agents[parent] == old(agents)[parent].(children := old(agents)[parent].children + [r.value])
                && forall id :: id in old(agents) && id != parent ==> agents[id] == old(agents)[id]
    {
      var id := counter;
      counter := counter + 1;
      if parent !in agents {
        return None;
      }
      var workspace := agents[parent].workspace;
      var agent := RegisteredAgent(id, Some(parent), workspace, role, Spawned, now, []);
      RegisteringKeepsConsistent(agents, workspaceAgents, children, id, agent);
      agents := agents[id := agent];
      children := PushAt(children, parent, id);
      // Also on the parent's own list.
      var listed := agents[parent].(children := agents[parent].children + [id]);
      if workspace.Some? {
        workspaceAgents := PushAt(workspaceAgents, workspace.value, id);
      }
      UpdatingKeepsConsistent(agents, workspaceAgents, children, counter, listed);
      agents := agents[parent := listed];
      return Some(id);
    }

    method SetState(id: AgentId, state: AgentState, now: int)
      requires Valid()
      modifies this`agents
      ensures Valid()
      ensures agents == if id in old(agents) then old(agents)[id := old(agents)[id].(state := state, stateChangedAt := now)]
                        else old(agents)
    {
      if id in agents {
        var changed := agents[id].(state := state, stateChangedAt := now);
        UpdatingKeepsConsistent(agents, workspaceAgents, children, counter, changed);
        agents := agents[id := changed];
      }
    }

    /** Drop every agent that ended before the cutoff, from the map and from both indexes. */
    method Cleanup(now: int, olderThan: int)
      requires Valid()
      modifies this
      ensures Valid()
      ensures agents == map id | id in old(agents) && !Expired(old(agents)[id], now - olderThan) :: old(agents)[id]
      ensures forall id :: id in old(agents) ==>
                (id !in agents <==>
                   && old(agents)[id].state in {Completed, Error, Cancelled}
                   && old(agents)[id].stateChangedAt + olderThan < now)
    {
      var cutoff := now - olderThan;
      var toRemove := set id | id in agents && Expired(agents[id], cutoff);
      // Whatever order the hash map is walked in.
      while toRemove != {}
        invariant Valid()
        invariant toRemove <= agents.Keys <= old(agents).Keys
        invariant forall id :: id in agents ==> agents[id] == old(agents)[id]
        invariant forall id :: id in old(agents) ==>
            (id in agents <==> id in toRemove || !Expired(old(agents)[id], cutoff))
        invariant forall id :: id in toRemove ==> Expired(old(agents)[id], cutoff)
        decreases |toRemove|
      {
        var id :| id in toRemove;
        RemoveAgent(id);
        toRemove := toRemove - {id};
      }
    }

    method RemoveAgent(id: AgentId)
      requires Valid() && id in agents
      modifies this
      ensures Valid()
      ensures agents == old(agents) - {id} && counter == old(counter)
    {
      var agent := agents[id];
      RemovingKeepsConsistent(agents, workspaceAgents, children, counter, id);
      agents := agents - {id};
      if agent.workspace.Some? {
        workspaceAgents := RemoveAt(workspaceAgents, agent.workspace.value, id);
      }
      if agent.parent.Some? {
        children := RemoveAt(children, agent.parent.value, id);
      }
      children := children - {id};
    }

    /** The registered agents behind a list of ids. */
    method Lookup(ids: seq<AgentId>) returns (r: seq<RegisteredAgent>)
      requires forall id :: id in ids ==> id in agents
      ensures |r| == |ids| && forall i :: 0 <= i < |r| ==> r[i] == agents[ids[i]]
    {
      r := [];
      for i := 0 to |ids|
        invariant |r| == i && forall j :: 0 <= j < i ==> r[j] == agents[ids[j]]
      {
        r := r + [agents[ids[i]]];
      }
    }

    /** by_workspace is a plain filter of the registered agents, each once. */
    method ByWorkspace(workspace: string) returns (r: seq<RegisteredAgent>)
      requires Valid()
      ensures forall a :: a in r <==> a.id in agents && agents[a.id] == a && a.workspace == Some(workspace)
      ensures forall i, j :: 0 <= i < j < |r| ==> r[i].id != r[j].id
    {
      assert WorkspaceListOk(agents, workspaceAgents, workspace);
      var ids := ListAt(workspaceAgents, workspace);
      r := Lookup(ids);
      forall a: RegisteredAgent | a.id in agents && agents[a.id] == a && a.workspace == Some(workspace) ensures a in r {
        var i :| 0 <= i < |ids| && ids[i] == a.id;
        assert r[i] == a;
      }
    }

    /** children of a registered agent is a plain filter by parent; of an unregistered one it is empty. */
    method Children(parent: AgentId) returns (r: seq<RegisteredAgent>)
      requires Valid()
      ensures parent in agents ==>
        forall a :: a in r <==> a.id in agents && agents[a.id] == a && a.parent == Some(parent)
      ensures parent !in agents ==> r == []
      ensures forall i, j :: 0 <= i < j < |r| ==> r[i].id != r[j].id
    {
      assert ChildListOk(agents, children, parent);
      var ids := ListAt(children, parent);
      r := Lookup(ids);
      if parent in agents {
        forall a: RegisteredAgent | a.id in agents && agents[a.id] == a && a.parent == Some(parent) ensures a in r {
          var i :| 0 <= i < |ids| && ids[i] == a.id;
          assert r[i] == a;
        }
      }
    }
  }
}
