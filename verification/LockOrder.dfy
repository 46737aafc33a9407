/**
  Who waits for whom in the registry.  A query takes an index lock and then the
  agents lock, both to read; a cleanup takes the agents lock and then both index
  locks, all to write; every other access takes one lock and lets it go.  Locks are
  granted whenever nobody holds them in a conflicting way.
 */
module LockOrder {
  import opened Wrappers

  datatype Lock = Agents | Workspaces | Children

  /** by_workspace and children */
  datatype Index = ByWorkspace | ByParent

  datatype Job =
    | Query(index: Index)
    | Cleanup
    | Touch(lock: Lock, write: bool)

  /** A job under way, and how many of its locks it has. */
  datatype Process = Process(job: Job, held: nat)

  type State = map<nat, Process>

  function Length(job: Job): nat {
    match job
    case Query(_) => 2
    case Cleanup => 3
    case Touch(_, _) => 1
  }

  /** The i-th lock a job takes. */
  function LockAt(job: Job, i: nat): Lock
    requires i < Length(job)
  {
    match job
    case Query(index) => if i == 1 then Agents else if index == ByWorkspace then Workspaces else Children
    case Cleanup => if i == 0 then Agents else if i == 1 then Workspaces else Children
    case Touch(lock, _) => lock
  }

  predicate Writes(job: Job) {
    match job
    case Query(_) => false
    case Cleanup => true
    case Touch(_, write) => write
  }

  predicate Holds(p: Process, lock: Lock) {
    exists i :: 0 <= i < p.held && i < Length(p.job) && LockAt(p.job, i) == lock
  }

  /** q's hold on the lock keeps p from getting it. */
  predicate Blocks(q: Process, p: Process, lock: Lock) {
    Holds(q, lock) && (Writes(p.job) || Writes(q.job))
  }

  predicate CanAcquire(s: State, id: nat) {
    && id in s && s[id].held < Length(s[id].job)
    && forall other :: other in s && other != id ==> !Blocks(s[other], s[id], LockAt(s[id].job, s[id].held))
  }

  datatype Step =
    | Start(id: nat, job: Job)
    | Acquire(id: nat)
    | Finish(id: nat)

  function Next(s: State, step: Step): Option<State> {
    match step
    case Start(id, job) => if id in s then None else Some(s[id := Process(job, 0)])
    case Acquire(id) => if CanAcquire(s, id) then Some(s[id := s[id].(held := s[id].held + 1)]) else None
    case Finish(id) => if id in s && s[id].held >= Length(s[id].job) then Some(s - {id}) else None
  }

  function Run(s: State, steps: seq<Step>): Option<State>
    decreases |steps|
  {
    if steps == [] then Some(s)
    else match Next(s, steps[0])
      case None => None
      case Some(next) => Run(next, steps[1..])
  }

  /** Nobody holds more locks than its job takes, and nobody holds what another writes. */
  ghost predicate Inv(s: State) {
    && (forall id :: id in s ==> s[id].held <= Length(s[id].job))
    && (forall p, q, lock :: Compatible(s, p, q, lock))
  }

  predicate Compatible(s: State, p: nat, q: nat, lock: Lock) {
    p in s && q in s && p != q && Holds(s[p], lock) ==> !Blocks(s[q], s[p], lock)
  }

  lemma StepKeepsInv(s: State, step: Step)
    requires Inv(s) && Next(s, step).Some?
    ensures Inv(Next(s, step).value)
  {
    var next := Next(s, step).value;
    forall p, q, lock ensures Compatible(next, p, q, lock) {
      assert Compatible(s, p, q, lock) && Compatible(s, q, p, lock);
    }
  }

  lemma {:induction false} RunKeepsInv(s: State, steps: seq<Step>)
    requires Inv(s) && Run(s, steps).Some?
    ensures Inv(Run(s, steps).value)
    decreases |steps|
  {
    if steps != [] {
      StepKeepsInv(s, steps[0]);
      RunKeepsInv(Next(s, steps[0]).value, steps[1..]);
    }
  }

  // ---------------------------------------------------------------------
  // Waiting for each other
  // ---------------------------------------------------------------------

  predicate Sweeping(p: Process) {
    p.job == Cleanup && p.held > 0
  }

  predicate HalfWay(p: Process) {
    p.job.Query? && p.held == 1
  }

  /** The cleanup has the agents, the query its index, and each still wants the other's. */
  predicate Embraced(s: State, c: nat, q: nat) {
    c in s && q in s && Sweeping(s[c]) && HalfWay(s[q])
  }

  predicate Doomed(s: State) {
    exists c, q :: c in s && q in s && Embraced(s, c, q)
  }

  /** Once embraced, neither ever gets on, whatever the others do. */
  lemma EmbraceStays(s: State, step: Step, c: nat, q: nat)
    requires Inv(s) && Embraced(s, c, q) && Next(s, step).Some?
    ensures Embraced(Next(s, step).value, c, q)
  {
    var index := LockAt(s[q].job, 0);
    assert Holds(s[q], index);
    assert LockAt(Cleanup, 0) == Agents && Holds(s[c], Agents);
    assert Compatible(s, q, c, index);
    assert s[c].held >= 3 ==> LockAt(Cleanup, 1) == Workspaces && LockAt(Cleanup, 2) == Children && Holds(s[c], index);
  }

  lemma {:induction false} EmbracedForever(s: State, steps: seq<Step>, c: nat, q: nat)
    requires Inv(s) && Embraced(s, c, q) && Run(s, steps).Some?
    ensures Embraced(Run(s, steps).value, c, q)
    decreases |steps|
  {
    if steps != [] {
      EmbraceStays(s, steps[0], c, q);
      StepKeepsInv(s, steps[0]);
      EmbracedForever(Next(s, steps[0]).value, steps[1..], c, q);
    }
  }

  /** The step that dooms: a cleanup gets the agents past a half-way query, or a query its index under a cleanup. */
  lemma DoomedExactlyBy(s: State, step: Step)
    requires Inv(s) && Next(s, step).Some?
    ensures Doomed(Next(s, step).value) <==>
              || Doomed(s)
              || (step.Acquire? && s[step.id] == Process(Cleanup, 0) && exists q :: q in s && HalfWay(s[q]))
              || (step.Acquire? && s[step.id].job.Query? && s[step.id].held == 0 && exists c :: c in s && Sweeping(s[c]))
  {
    var next := Next(s, step).value;
    if Doomed(s) {
      var c, q :| c in s && q in s && Embraced(s, c, q);
      EmbraceStays(s, step, c, q);
    }
    if step.Acquire? && s[step.id] == Process(Cleanup, 0) && exists q :: q in s && HalfWay(s[q]) {
      var q :| q in s && HalfWay(s[q]);
      assert Embraced(next, step.id, q);
    }
    if step.Acquire? && s[step.id].job.Query? && s[step.id].held == 0 && exists c :: c in s && Sweeping(s[c]) {
      var c :| c in s && Sweeping(s[c]);
      assert Embraced(next, c, step.id);
    }
    if Doomed(next) {
      var c, q :| c in next && q in next && Embraced(next, c, q);
      assert c in s && q in s;
      assert Sweeping(s[c]) && HalfWay(s[q]) ==> Embraced(s, c, q);
    }
  }

  // ---------------------------------------------------------------------
  // A way out
  // ---------------------------------------------------------------------

  /** Nobody stands in the way of what the process still wants. */
  predicate IsClear(s: State, id: nat) {
    && id in s && s[id].held <= Length(s[id].job)
    && forall other, i :: other in s && other != id && s[id].held <= i < Length(s[id].job) ==>
         !Blocks(s[other], s[id], LockAt(s[id].job, i))
  }

  lemma {:induction false} RunAlone(s: State, id: nat) returns (steps: seq<Step>)
    requires IsClear(s, id)
    ensures Run(s, steps) == Some(s - {id})
    decreases if id in s then Length(s[id].job) - s[id].held else 0
  {
    if s[id].held == Length(s[id].job) {
      steps := [Finish(id)];
      assert Run(s - {id}, steps[1..]) == Some(s - {id});
    } else {
      var next := Next(s, Acquire(id)).value;
      var rest := RunAlone(next, id);
      steps := [Acquire(id)] + rest;
      assert steps[1..] == rest && next - {id} == s - {id};
    }
  }

  /** Unless doomed, somebody's way is clear. */
  lemma SomebodyIsClear(s: State) returns (id: nat)
    requires Inv(s) && !Doomed(s) && s != map[]
    ensures IsClear(s, id)
  {
    if done :| done in s && s[done].held == Length(s[done].job) {
      id := done;
    } else if c :| c in s && Sweeping(s[c]) {
      id := c;
      NobodyInTheWayOfCleanup(s, c);
    } else if q :| q in s && HalfWay(s[q]) {
      id := q;
      assert forall other :: other in s && other != q ==> !Holds(s[other], Agents);
    } else {
      id :| id in s;
      assert forall other, lock :: other in s ==> !Holds(s[other], lock);
    }
  }

  lemma NobodyInTheWayOfCleanup(s: State, c: nat)
    requires Inv(s) && !Doomed(s) && c in s && Sweeping(s[c])
    requires forall id :: id in s ==> s[id].held < Length(s[id].job)
    ensures IsClear(s, c)
  {
    assert LockAt(Cleanup, 0) == Agents && Holds(s[c], Agents);
    forall other, i: nat | other in s && other != c && s[c].held <= i < 3 ensures !Blocks(s[other], s[c], LockAt(Cleanup, i)) {
      assert !Embraced(s, c, other);
      assert Compatible(s, c, other, Agents);
      assert s[other].job == Cleanup && s[other].held > 0 ==> LockAt(s[other].job, 0) == Agents && Holds(s[other], Agents);
    }
  }

  lemma {:induction false} RunConcat(s: State, a: seq<Step>, b: seq<Step>)
    requires Run(s, a).Some?
    ensures Run(s, a + b) == Run(Run(s, a).value, b)
    decreases |a|
  {
    if a == [] {
      assert a + b == b;
    } else {
      assert (a + b)[0] == a[0] && (a + b)[1..] == a[1..] + b;
      RunConcat(Next(s, a[0]).value, a[1..], b);
    }
  }

  /** Unless doomed, everybody can finish. */
  lemma {:induction false} WayOut(s: State) returns (steps: seq<Step>)
    requires Inv(s) && !Doomed(s)
    ensures Run(s, steps) == Some(map[])
    decreases |s|
  {
    if s == map[] {
      steps := [];
    } else {
      var id := SomebodyIsClear(s);
      var first := RunAlone(s, id);
      var left := s - {id};
      RunKeepsInv(s, first);
      assert forall c, q :: Embraced(left, c, q) ==> Embraced(s, c, q);
      assert |left| < |s| by {
        assert left.Keys == s.Keys - {id};
      }
      var rest := WayOut(left);
      RunConcat(s, first, rest);
      steps := first + rest;
    }
  }

  /**
    Some schedule lets everybody finish if and only if no cleanup that has the agents
    meets a query that has its index but not yet the agents.
   */
  lemma StuckExactlyWhen(s: State)
    requires Inv(s)
    ensures (exists steps :: Run(s, steps) == Some(map[])) <==> !Doomed(s)
  {
    if !Doomed(s) {
      var steps := WayOut(s);
    } else {
      var c, q :| c in s && q in s && Embraced(s, c, q);
      forall steps ensures Run(s, steps) != Some(map[]) {
        if Run(s, steps).Some? {
          EmbracedForever(s, steps, c, q);
        }
      }
    }
  }

  /** It can happen: a query takes its index, a cleanup the agents, and both wait for good. */
  lemma QueryAndCleanupCanWaitForever()
    ensures exists steps :: Run(map[], steps).Some? && Inv(Run(map[], steps).value) && Doomed(Run(map[], steps).value)
  {
    var steps := [Start(0, Query(ByWorkspace)), Start(1, Cleanup), Acquire(0), Acquire(1)];
    var empty: State := map[];
    var a := Next(empty, steps[0]).value;
    var b := Next(a, steps[1]).value;
    var c := Next(b, steps[2]).value;
    assert c[0] == Process(Query(ByWorkspace), 1) && c[1] == Process(Cleanup, 0);
    assert LockAt(Query(ByWorkspace), 0) == Workspaces && !Holds(c[0], Agents);
    var d := Next(c, steps[3]).value;
    assert Embraced(d, 1, 0);
    assert steps[1..][1..][1..][1..] == [];
    assert steps[1..][0] == steps[1] && steps[1..][1..][0] == steps[2] && steps[1..][1..][1..][0] == steps[3];
    assert Run(c, steps[1..][1..][1..]) == Some(d);
    assert Run(b, steps[1..][1..]) == Some(d);
    assert Run(a, steps[1..]) == Some(d);
    assert Run(empty, steps) == Some(d);
    RunKeepsInv(empty, steps);
  }
}
