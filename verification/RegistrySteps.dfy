/**
  The registry's calls as interleaved steps.  A registration takes its locks one
  after the other: the agent goes into the map, then on its parent's list, then into
  its parent's own record, then on its workspace's list, and anything may happen in
  between.  Remove stands for one agent of a cleanup, which holds all three locks; it may strike any agent at any
  time, so what holds here holds whenever a cleanup scanned before it pruned.
 */
module RegistrySteps {
  import opened Wrappers
  import opened Registry

  /** What a registration does next. */
  datatype Stage = Inserting | Filing | Recording | Listing

  datatype Call = Call(parent: Option<AgentId>, workspace: Option<string>, stage: Stage)

  /** `children` is the list in the agent's own record, beside the index. */
  datatype Agent = Agent(parent: Option<AgentId>, workspace: Option<string>, state: AgentState, children: seq<AgentId>)

  datatype State = State(
    counter: nat, agents: map<AgentId, Agent>, workspaceAgents: map<string, seq<AgentId>>,
    children: map<AgentId, seq<AgentId>>, calls: map<AgentId, Call>)

  datatype Step =
    | BeginMain(workspace: string)
    | BeginStandalone
    | BeginSpawn(parent: AgentId)
    | Advance(id: AgentId)
    | SetState(id: AgentId, state: AgentState)
    | Remove(id: AgentId)

  const EMPTY := State(0, map[], map[], map[], map[])

  function Begin(s: State, parent: Option<AgentId>, workspace: Option<string>): State {
    s.(counter := s.counter + 1, calls := s.calls[s.counter := Call(parent, workspace, Inserting)])
  }

  /** What is left of a call once its current stage is done. */
  function After(call: Call): Option<Call> {
    if call.stage == Inserting && call.parent.Some? then Some(call.(stage := Filing))
    else if call.stage == Filing then Some(call.(stage := Recording))
    else if call.stage != Listing && call.workspace.Some? then Some(call.(stage := Listing))
    else None
  }

  function Moved(s: State, id: AgentId): State
    requires id in s.calls
  {
    match After(s.calls[id])
    case Some(call) => s.(calls := s.calls[id := call])
    case None => s.(calls := s.calls - {id})
  }

  function Advanced(s: State, id: AgentId): State
    requires id in s.calls && StagesOk(s.calls[id])
  {
    var call := s.calls[id];
    match call.stage
    case Inserting => Moved(s, id).(agents := s.agents[id := Agent(call.parent, call.workspace, Spawned, [])])
    case Filing => Moved(s, id).(children := PushAt(s.children, call.parent.value, id))
    case Recording => Moved(s, id).(agents := Recorded(s.agents, call.parent.value, id))
    case Listing => Moved(s, id).(workspaceAgents := PushAt(s.workspaceAgents, call.workspace.value, id))
  }

  /** A parent that is gone by now is passed over. */
  function Recorded(agents: map<AgentId, Agent>, parent: AgentId, id: AgentId): map<AgentId, Agent> {
    if parent in agents then agents[parent := agents[parent].(children := agents[parent].children + [id])] else agents
  }

  predicate StagesOk(call: Call) {
    (call.stage == Filing || call.stage == Recording ==> call.parent.Some?) && (call.stage == Listing ==> call.workspace.Some?)
  }

  function Removed(s: State, id: AgentId): State
    requires id in s.agents
  {
    var agent := s.agents[id];
    s.(agents := s.agents - {id},
       workspaceAgents := if agent.workspace.None? then s.workspaceAgents
                          else RemoveAt(s.workspaceAgents, agent.workspace.value, id),
       children := (if agent.parent.None? then s.children else RemoveAt(s.children, agent.parent.value, id)) - {id})
  }

  /** None when the step is not enabled.  Spawning under an unknown parent fails and uses up an id. */
  function Next(s: State, step: Step): Option<State> {
    match step
    case BeginMain(workspace) => Some(Begin(s, None, Some(workspace)))
    case BeginStandalone => Some(Begin(s, None, None))
    case BeginSpawn(parent) =>
      if parent !in s.agents then Some(s.(counter := s.counter + 1))
      else Some(Begin(s, Some(parent), s.agents[parent].workspace))
    case Advance(id) => if id in s.calls && StagesOk(s.calls[id]) then Some(Advanced(s, id)) else None
    case SetState(id, state) =>
      if id in s.agents then Some(s.(agents := s.agents[id := s.agents[id].(state := state)])) else Some(s)
    case Remove(id) => if id in s.agents then Some(Removed(s, id)) else None
  }

  function Run(s: State, steps: seq<Step>): Option<State>
    decreases |steps|
  {
    if steps == [] then Some(s)
    else match Next(s, steps[0])
      case None => None
      case Some(next) => Run(next, steps[1..])
  }

  // ---------------------------------------------------------------------
  // What every interleaving keeps
  // ---------------------------------------------------------------------

  /** An id that is in the map or was: it never goes in again. */
  predicate IsPast(s: State, id: AgentId) {
    id < s.counter && !(id in s.calls && s.calls[id].stage == Inserting)
  }

  predicate CallOk(s: State, id: AgentId) {
    id in s.calls ==>
    var call := s.calls[id];
    && id < s.counter && StagesOk(call)
    && (call.stage == Inserting ==> id !in s.agents)
    && (id in s.agents ==> s.agents[id].workspace == call.workspace && s.agents[id].parent == call.parent)
    && (call.parent.Some? ==> IsPast(s, call.parent.value))
  }

  predicate AgentOk(s: State, id: AgentId) {
    id in s.agents ==> id < s.counter && (s.agents[id].parent.Some? ==> IsPast(s, s.agents[id].parent.value))
  }

  /** Who is listed under w belongs there if registered, and has nothing left to do; who is not still has. */
  predicate WorkspaceOk(s: State, w: string) {
    var listed := ListAt(s.workspaceAgents, w);
    && NoDuplicates(listed)
    && (forall id :: id in listed ==> id < s.counter && id !in s.calls)
    && (forall id :: id in listed && id in s.agents ==> s.agents[id].workspace == Some(w))
    && (forall id :: id in s.agents && s.agents[id].workspace == Some(w) ==> id in listed || id in s.calls)
  }

  predicate Files(s: State, id: AgentId) {
    id in s.calls && s.calls[id].stage == Filing
  }

  predicate ChildrenOk(s: State, p: AgentId) {
    var listed := ListAt(s.children, p);
    && NoDuplicates(listed)
    && (forall id :: id in listed ==> id < s.counter && (id in s.calls ==> s.calls[id].stage == Recording || s.calls[id].stage == Listing))
    && (forall id :: id in listed && id in s.agents ==> s.agents[id].parent == Some(p))
    && (p in s.agents ==> forall id :: id in s.agents && s.agents[id].parent == Some(p) ==> id in listed || Files(s, id))
  }

  predicate Records(s: State, id: AgentId) {
    id in s.calls && (s.calls[id].stage == Filing || s.calls[id].stage == Recording)
  }

  /** A parent's own record: never wrong about anybody registered, and complete but for the unfinished. */
  predicate RecordOk(s: State, p: AgentId) {
    p in s.agents ==>
    var listed := s.agents[p].children;
    && NoDuplicates(listed)
    && (forall id :: id in listed ==> id < s.counter && (id in s.calls ==> s.calls[id].stage == Listing))
    && (forall id :: id in listed && id in s.agents ==> s.agents[id].parent == Some(p))
    && (forall id :: id in s.agents && s.agents[id].parent == Some(p) ==> id in listed || Records(s, id))
  }

  ghost predicate Inv(s: State) {
    && (forall id :: CallOk(s, id))
    && (forall id :: AgentOk(s, id))
    && (forall w :: WorkspaceOk(s, w))
    && (forall p :: ChildrenOk(s, p))
    && (forall p :: RecordOk(s, p))
  }

  lemma BeginKeepsInv(s: State, parent: Option<AgentId>, workspace: Option<string>)
    requires Inv(s) && (parent.Some? ==> parent.value in s.agents)
    ensures Inv(Begin(s, parent, workspace))
  {
    var next := Begin(s, parent, workspace);
    assert CallOk(s, s.counter) && AgentOk(s, s.counter);
    forall id ensures CallOk(next, id) {
      assert CallOk(s, id);
      assert AgentOk(s, id);
      assert parent.Some? ==> AgentOk(s, parent.value) && CallOk(s, parent.value);
    }
    forall id ensures AgentOk(next, id) {
      assert AgentOk(s, id);
    }
    forall w ensures WorkspaceOk(next, w) {
      assert WorkspaceOk(s, w);
    }
    forall p ensures ChildrenOk(next, p) {
      assert ChildrenOk(s, p);
    }
    forall p ensures RecordOk(next, p) {
      assert RecordOk(s, p);
    }
  }

  /** A call that moves on is the same call at a later stage, and never inserts again. */
  ghost predicate MovesOn(s: State, next: State, id: AgentId)
    requires id in s.calls
  {
    && (forall other :: other != id ==> (other in next.calls <==> other in s.calls))
    && (forall other :: other != id && other in s.calls ==> next.calls[other] == s.calls[other])
    && (id in next.calls ==>
          && next.calls[id].stage != Inserting && StagesOk(next.calls[id])
          && next.calls[id].parent == s.calls[id].parent && next.calls[id].workspace == s.calls[id].workspace)
    && (s.calls[id].stage == Inserting && s.calls[id].parent.Some? ==> Files(next, id))
    && (s.calls[id].stage == Filing ==> id in next.calls && next.calls[id].stage == Recording)
    && (s.calls[id].stage != Listing && s.calls[id].workspace.Some? ==> id in next.calls)
    && (s.calls[id].stage == Recording && id in next.calls ==> next.calls[id].stage == Listing)
    && (s.calls[id].stage == Listing ==> id !in next.calls)
    && next.counter == s.counter
  }

  lemma AdvanceMovesOn(s: State, id: AgentId)
    requires id in s.calls && StagesOk(s.calls[id])
    ensures MovesOn(s, Advanced(s, id), id)
  {
  }

  /** Who is registered, under which parent and in which workspace, stays. */
  predicate SameLinks(s: State, next: State) {
    && next.agents.Keys == s.agents.Keys
    && forall id :: id in s.agents ==>
         next.agents[id].parent == s.agents[id].parent && next.agents[id].workspace == s.agents[id].workspace
  }

  predicate Inserts(s: State, next: State, id: AgentId)
    requires id in s.calls
  {
    && s.calls[id].stage == Inserting
    && next.agents == s.agents[id := Agent(s.calls[id].parent, s.calls[id].workspace, Spawned, [])]
  }

  lemma AdvanceKeepsCall(s: State, id: AgentId, next: State, other: AgentId)
    requires id in s.calls && CallOk(s, id) && MovesOn(s, next, id)
    requires SameLinks(s, next) || Inserts(s, next, id)
    ensures CallOk(s, other) ==> CallOk(next, other)
    ensures AgentOk(s, other) ==> AgentOk(next, other)
  {
  }

  lemma InsertKeepsLists(s: State, id: AgentId, next: State)
    requires Inv(s) && id in s.calls && MovesOn(s, next, id) && Inserts(s, next, id)
    requires next.workspaceAgents == s.workspaceAgents && next.children == s.children
    ensures forall w :: WorkspaceOk(next, w)
    ensures forall p :: ChildrenOk(next, p)
  {
    assert CallOk(s, id);
    forall w ensures WorkspaceOk(next, w) {
      assert WorkspaceOk(s, w);
    }
    forall p ensures ChildrenOk(next, p) {
      assert ChildrenOk(s, p);
      // Nobody's parent is still to go into the map.
      forall other | other in s.agents && s.agents[other].parent == Some(p) ensures p != id {
        assert AgentOk(s, other);
      }
    }
  }

  lemma InsertKeepsRecords(s: State, id: AgentId, next: State, p: AgentId)
    requires Inv(s) && id in s.calls && MovesOn(s, next, id) && Inserts(s, next, id)
    ensures RecordOk(next, p)
  {
    assert CallOk(s, id);
    forall other | other in s.agents && s.agents[other].parent == Some(p) ensures p != id {
      assert AgentOk(s, other);
    }
    assert RecordOk(s, p);
  }

  lemma FileKeepsLists(s: State, id: AgentId, next: State)
    requires Inv(s) && id in s.calls && s.calls[id].stage == Filing && MovesOn(s, next, id) && CallOk(s, id)
    requires next.agents == s.agents && next.workspaceAgents == s.workspaceAgents
    requires next.children == PushAt(s.children, s.calls[id].parent.value, id)
    ensures forall w :: WorkspaceOk(next, w)
    ensures forall p :: ChildrenOk(next, p)
  {
    forall w ensures WorkspaceOk(next, w) {
      assert WorkspaceOk(s, w);
    }
    forall p ensures ChildrenOk(next, p) {
      assert ChildrenOk(s, p);
      PushNew(ListAt(s.children, p), id);
    }
  }

  lemma ListKeepsLists(s: State, id: AgentId, next: State)
    requires Inv(s) && id in s.calls && s.calls[id].stage == Listing && MovesOn(s, next, id) && CallOk(s, id)
    requires next.agents == s.agents && next.children == s.children
    requires next.workspaceAgents == PushAt(s.workspaceAgents, s.calls[id].workspace.value, id)
    ensures forall w :: WorkspaceOk(next, w)
    ensures forall p :: ChildrenOk(next, p)
  {
    forall w ensures WorkspaceOk(next, w) {
      assert WorkspaceOk(s, w);
      PushNew(ListAt(s.workspaceAgents, w), id);
    }
    forall p ensures ChildrenOk(next, p) {
      assert ChildrenOk(s, p);
    }
  }

  /** Filing and listing touch no record. */
  lemma OtherStagesKeepRecords(s: State, id: AgentId, next: State, p: AgentId)
    requires RecordOk(s, p) && id in s.calls && MovesOn(s, next, id) && next.agents == s.agents
    requires s.calls[id].stage == Filing || s.calls[id].stage == Listing
    ensures RecordOk(next, p)
  {
  }

  lemma RecordKeepsLists(s: State, id: AgentId, next: State)
    requires Inv(s) && id in s.calls && s.calls[id].stage == Recording && MovesOn(s, next, id) && SameLinks(s, next)
    requires next.workspaceAgents == s.workspaceAgents && next.children == s.children
    ensures forall w :: WorkspaceOk(next, w)
    ensures forall p :: ChildrenOk(next, p)
  {
    assert CallOk(s, id);
    forall w ensures WorkspaceOk(next, w) {
      assert WorkspaceOk(s, w);
    }
    forall p ensures ChildrenOk(next, p) {
      assert ChildrenOk(s, p);
    }
  }

  lemma RecordKeepsRecords(s: State, id: AgentId, next: State, p: AgentId)
    requires RecordOk(s, p) && id in s.calls && s.calls[id].stage == Recording && MovesOn(s, next, id) && CallOk(s, id)
    requires next.agents == Recorded(s.agents, s.calls[id].parent.value, id)
    ensures RecordOk(next, p)
  {
    if s.calls[id].parent == Some(p) && p in s.agents {
      PushNew(s.agents[p].children, id);
    }
  }

  lemma AdvanceKeepsRecords(s: State, id: AgentId, p: AgentId)
    requires Inv(s) && id in s.calls && StagesOk(s.calls[id])
    ensures RecordOk(Advanced(s, id), p)
  {
    assert CallOk(s, id) && RecordOk(s, p);
    AdvanceMovesOn(s, id);
    match s.calls[id].stage
    case Inserting => InsertKeepsRecords(s, id, Advanced(s, id), p);
    case Recording => RecordKeepsRecords(s, id, Advanced(s, id), p);
    case _ => OtherStagesKeepRecords(s, id, Advanced(s, id), p);
  }

  lemma AdvanceKeepsInv(s: State, id: AgentId)
    requires Inv(s) && id in s.calls && StagesOk(s.calls[id])
    ensures Inv(Advanced(s, id))
  {
    var next := Advanced(s, id);
    assert CallOk(s, id);
    AdvanceMovesOn(s, id);
    forall other ensures CallOk(next, other) && AgentOk(next, other) {
      assert CallOk(s, other) && AgentOk(s, other);
      AdvanceKeepsCall(s, id, next, other);
    }
    forall p ensures RecordOk(next, p) {
      AdvanceKeepsRecords(s, id, p);
    }
    match s.calls[id].stage
    case Inserting => InsertKeepsLists(s, id, next);
    case Filing => FileKeepsLists(s, id, next);
    case Recording => RecordKeepsLists(s, id, next);
    case Listing => ListKeepsLists(s, id, next);
  }

  lemma RemoveKeepsInv(s: State, id: AgentId)
    requires Inv(s) && id in s.agents
    ensures Inv(Removed(s, id))
  {
    var next := Removed(s, id);
    forall other ensures CallOk(next, other) {
      assert CallOk(s, other);
    }
    forall other ensures AgentOk(next, other) {
      assert AgentOk(s, other);
    }
    forall w ensures WorkspaceOk(next, w) {
      assert WorkspaceOk(s, w);
    }
    forall p ensures ChildrenOk(next, p) {
      assert ChildrenOk(s, p);
    }
    forall p ensures RecordOk(next, p) {
      assert RecordOk(s, p);
    }
  }

  lemma QuietStepKeepsInv(s: State, next: State)
    requires Inv(s) && next.calls == s.calls && s.counter <= next.counter
    requires next.workspaceAgents == s.workspaceAgents && next.children == s.children
    requires next.agents.Keys == s.agents.Keys
    requires forall id :: id in s.agents ==>
               next.agents[id].parent == s.agents[id].parent && next.agents[id].workspace == s.agents[id].workspace
               && next.agents[id].children == s.agents[id].children
    ensures Inv(next)
  {
    forall id ensures CallOk(next, id) {
      assert CallOk(s, id);
    }
    forall id ensures AgentOk(next, id) {
      assert AgentOk(s, id);
    }
    forall w ensures WorkspaceOk(next, w) {
      assert WorkspaceOk(s, w);
    }
    forall p ensures ChildrenOk(next, p) {
      assert ChildrenOk(s, p);
    }
    forall p ensures RecordOk(next, p) {
      assert RecordOk(s, p);
    }
  }

  lemma StepKeepsInv(s: State, step: Step)
    requires Inv(s) && Next(s, step).Some?
    ensures Inv(Next(s, step).value)
  {
    match step
    case BeginMain(workspace) => BeginKeepsInv(s, None, Some(workspace));
    case BeginStandalone => BeginKeepsInv(s, None, None);
    case BeginSpawn(parent) =>
      if parent in s.agents {
        BeginKeepsInv(s, Some(parent), s.agents[parent].workspace);
      } else {
        QuietStepKeepsInv(s, Next(s, step).value);
      }
    case Advance(id) => AdvanceKeepsInv(s, id);
    case SetState(id, state) => QuietStepKeepsInv(s, Next(s, step).value);
    case Remove(id) => RemoveKeepsInv(s, id);
  }

  lemma {:induction false} RunKeepsInv(s: State, steps: seq<Step>)
    requires Inv(s) && Run(s, steps).Some?
    ensures Inv(Run(s, steps).value)
    decreases |steps|
  {
    if steps != [] {
      StepKeepsInv(s, steps[0]);
      RunKeepsInv(Next(s, steps[0]).value, steps[1..]);
    }
  }

  // ---------------------------------------------------------------------
  // What the queries see
  // ---------------------------------------------------------------------

  /** by_workspace and children: the listed ids that are registered. */
  predicate Sees(s: State, listed: seq<AgentId>, id: AgentId) {
    id in listed && id in s.agents
  }

  /**
    Whatever ran so far and in whatever order, by_workspace is the plain filter
    without the agents whose registration has not finished, children of a registered
    agent is the plain filter without those that are still to be filed, and the list
    in its own record is the plain filter without those still to be recorded.  None
    of them ever names anybody who does not belong, or anybody twice.
   */
  lemma QueriesAreFilters(steps: seq<Step>, w: string, p: AgentId, id: AgentId)
    requires Run(EMPTY, steps).Some?
    ensures var s := Run(EMPTY, steps).value;
      && NoDuplicates(ListAt(s.workspaceAgents, w)) && NoDuplicates(ListAt(s.children, p))
      && (Sees(s, ListAt(s.workspaceAgents, w), id) <==>
            id in s.agents && s.agents[id].workspace == Some(w) && id !in s.calls)
      && (p in s.agents ==>
            (Sees(s, ListAt(s.children, p), id) <==>
               id in s.agents && s.agents[id].parent == Some(p) && !Files(s, id)))
      && (p in s.agents ==>
            && NoDuplicates(s.agents[p].children)
            && (Sees(s, s.agents[p].children, id) <==>
                  id in s.agents && s.agents[id].parent == Some(p) && !Records(s, id)))
  {
    RunKeepsInv(EMPTY, steps);
    var s := Run(EMPTY, steps).value;
    assert WorkspaceOk(s, w) && ChildrenOk(s, p);
    assert RecordOk(s, p);
  }

  /** Once no registration is under way, all three are the plain filters. */
  lemma QuietQueriesAreExact(steps: seq<Step>, w: string, p: AgentId, id: AgentId)
    requires Run(EMPTY, steps).Some? && Run(EMPTY, steps).value.calls == map[]
    ensures var s := Run(EMPTY, steps).value;
      && (Sees(s, ListAt(s.workspaceAgents, w), id) <==> id in s.agents && s.agents[id].workspace == Some(w))
      && (p in s.agents ==>
            (Sees(s, ListAt(s.children, p), id) <==> id in s.agents && s.agents[id].parent == Some(p)))
      && (p in s.agents ==>
            (Sees(s, s.agents[p].children, id) <==> id in s.agents && s.agents[id].parent == Some(p)))
  {
    QueriesAreFilters(steps, w, p, id);
  }

  /** A cleanup that strikes between two locks leaves an id on a list for good, though no query shows it. */
  lemma CleanupCanLeaveAnId()
    ensures exists steps :: Run(EMPTY, steps).Some? &&
              var s := Run(EMPTY, steps).value;
              s.calls == map[] && s.agents == map[] && ListAt(s.workspaceAgents, "w") == [0]
  {
    var steps := [BeginMain("w"), Advance(0), Remove(0), Advance(0)];
    var a := Next(EMPTY, steps[0]).value;
    var b := Next(a, steps[1]).value;
    var c := Next(b, steps[2]).value;
    var d := Next(c, steps[3]).value;
    assert d.calls == map[] && d.agents == map[];
    assert steps[1..][1..][1..][1..] == [];
    assert steps[1..][0] == steps[1] && steps[1..][1..][0] == steps[2] && steps[1..][1..][1..][0] == steps[3];
    assert Run(c, steps[1..][1..][1..]) == Some(d);
    assert Run(b, steps[1..][1..]) == Some(d);
    assert Run(a, steps[1..]) == Some(d);
    assert Run(EMPTY, steps) == Some(d);
  }

  // ---------------------------------------------------------------------
  // What single steps do
  // ---------------------------------------------------------------------

  /** A state change changes that state and nothing else; spawning under nobody changes nothing but the next id. */
  lemma QuietStepsDoNoMore(s: State, id: AgentId, state: AgentState)
    ensures Next(s, SetState(id, state)).Some?
    ensures id in s.agents ==>
              var next := Next(s, SetState(id, state)).value;
              next == s.(agents := s.agents[id := Agent(s.agents[id].parent, s.agents[id].workspace, state, s.agents[id].children)])
    ensures id !in s.agents ==> Next(s, SetState(id, state)) == Some(s)
    ensures id !in s.agents ==> Next(s, BeginSpawn(id)) == Some(s.(counter := s.counter + 1))
  {
  }

  function StagesLeft(call: Call): nat {
    match call.stage
    case Inserting => 4
    case Filing => 3
    case Recording => 2
    case Listing => 1
  }

  /** A registration left to itself finishes in at most four steps of its own, and is then to be found. */
  lemma {:induction false} RegistrationFinishes(s: State, id: AgentId) returns (steps: seq<Step>)
    requires Inv(s) && id in s.calls
    ensures |steps| <= StagesLeft(s.calls[id]) && forall i :: 0 <= i < |steps| ==> steps[i] == Advance(id)
    ensures Run(s, steps).Some? && id !in Run(s, steps).value.calls && Inv(Run(s, steps).value)
    ensures s.calls[id].stage == Inserting || id in s.agents ==> id in Run(s, steps).value.agents
    decreases StagesLeft(s.calls[id])
  {
    assert CallOk(s, id);
    var next := Next(s, Advance(id)).value;
    AdvanceMovesOn(s, id);
    AdvanceKeepsInv(s, id);
    if id in next.calls {
      var rest := RegistrationFinishes(next, id);
      steps := [Advance(id)] + rest;
      assert steps[1..] == rest;
    } else {
      steps := [Advance(id)];
      assert steps[1..] == [];
    }
  }
}
