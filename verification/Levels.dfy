/**
  Execution levels of a decomposed task (SwarmCoordinator::build_execution_levels):
  the loop, and what its levels mean in terms of dependency chains.
 */
module Levels {
  import History
  import opened Sequences

  datatype Id = Id(name: string)

  datatype Subtask = Subtask(id: Id, dependencies: seq<Id>)

  function IdsOf(tasks: seq<Subtask>): set<Id> {
    set t | t in tasks :: t.id
  }

  function IdList(tasks: seq<Subtask>): seq<Id> {
    seq(|tasks|, i requires 0 <= i < |tasks| => tasks[i].id)
  }

  predicate Met(t: Subtask, done: set<Id>) {
    forall d :: d in t.dependencies ==> d in done
  }

  /** The ready ones among the first n tasks, in order. */
  function ReadyTo(tasks: seq<Subtask>, done: set<Id>, n: nat): seq<Subtask>
    requires n <= |tasks|
  {
    if n == 0 then []
    else if Met(tasks[n - 1], done) then ReadyTo(tasks, done, n - 1) + [tasks[n - 1]]
    else ReadyTo(tasks, done, n - 1)
  }

  function WaitingTo(tasks: seq<Subtask>, done: set<Id>, n: nat): seq<Subtask>
    requires n <= |tasks|
  {
    if n == 0 then []
    else if Met(tasks[n - 1], done) then WaitingTo(tasks, done, n - 1)
    else WaitingTo(tasks, done, n - 1) + [tasks[n - 1]]
  }

  function Ready(tasks: seq<Subtask>, done: set<Id>): seq<Subtask> {
    ReadyTo(tasks, done, |tasks|)
  }

  function Waiting(tasks: seq<Subtask>, done: set<Id>): seq<Subtask> {
    WaitingTo(tasks, done, |tasks|)
  }

  /** Ready and Waiting split the tasks. */
  lemma {:induction false} PartitionTo(tasks: seq<Subtask>, done: set<Id>, n: nat)
    requires n <= |tasks|
    ensures |ReadyTo(tasks, done, n)| + |WaitingTo(tasks, done, n)| == n
    ensures ReadyTo(tasks, done, n) == [] ==> WaitingTo(tasks, done, n) == tasks[..n]
  {
    if n > 0 {
      PartitionTo(tasks, done, n - 1);
      assert tasks[..n] == tasks[..n - 1] + [tasks[n - 1]];
    }
  }

  lemma Partition(tasks: seq<Subtask>, done: set<Id>)
    ensures |Ready(tasks, done)| + |Waiting(tasks, done)| == |tasks|
    ensures Ready(tasks, done) == [] ==> Waiting(tasks, done) == tasks
  {
    PartitionTo(tasks, done, |tasks|);
    assert tasks[..|tasks|] == tasks;
  }

  /** Nothing is lost, nothing is duplicated. */
  lemma {:induction false} PartitionBag(tasks: seq<Subtask>, done: set<Id>, n: nat)
    requires n <= |tasks|
    ensures multiset(IdList(tasks[..n])) ==
            multiset(IdList(ReadyTo(tasks, done, n))) + multiset(IdList(WaitingTo(tasks, done, n)))
  {
    if n > 0 {
      var t, front := tasks[n - 1], tasks[..n - 1];
      var ready, waiting := ReadyTo(tasks, done, n - 1), WaitingTo(tasks, done, n - 1);
      var a, b := multiset(IdList(ready)), multiset(IdList(waiting));
      assert multiset(IdList(front)) == a + b by {
        PartitionBag(tasks, done, n - 1);
      }
      assert multiset(IdList(tasks[..n])) == a + b + multiset{t.id} by {
        BagStep(front, t);
        assert tasks[..n] == front + [t];
      }
      JoinOneMore(a, b, t.id);
      if Met(t, done) {
        BagStep(ready, t);
      } else {
        BagStep(waiting, t);
      }
    }
  }

  lemma JoinOneMore<T>(a: multiset<T>, b: multiset<T>, x: T)
    ensures a + b + multiset{x} == (a + multiset{x}) + b
    ensures a + b + multiset{x} == a + (b + multiset{x})
  {
  }

  lemma BagStep(tasks: seq<Subtask>, t: Subtask)
    ensures multiset(IdList(tasks + [t])) == multiset(IdList(tasks)) + multiset{t.id}
  {
    IdListStep(tasks, t);
    History.BagOneMore(IdList(tasks), t.id);
  }

  lemma IdListStep(tasks: seq<Subtask>, t: Subtask)
    ensures IdList(tasks + [t]) == IdList(tasks) + [t.id]
  {
  }

  lemma {:induction false} WhoIsReady(tasks: seq<Subtask>, done: set<Id>, n: nat, t: Subtask)
    requires n <= |tasks|
    ensures t in ReadyTo(tasks, done, n) <==> t in tasks[..n] && Met(t, done)
    ensures t in WaitingTo(tasks, done, n) <==> t in tasks[..n] && !Met(t, done)
  {
    if n > 0 {
      WhoIsReady(tasks, done, n - 1, t);
      assert tasks[..n] == tasks[..n - 1] + [tasks[n - 1]];
    }
  }

  /** Level after level of ready tasks; when none is ready, everything left is one last level. */
  function Plan(tasks: seq<Subtask>, done: set<Id>): seq<seq<Subtask>>
    decreases |tasks|
  {
    if tasks == [] then []
    else if Ready(tasks, done) == [] then [tasks]
    else
      Partition(tasks, done);
      [Ready(tasks, done)] + Plan(Waiting(tasks, done), done + IdsOf(Ready(tasks, done)))
  }

  function IdLists(plan: seq<seq<Subtask>>): seq<seq<Id>> {
    seq(|plan|, i requires 0 <= i < |plan| => IdList(plan[i]))
  }

  lemma IdListsStep(first: seq<Subtask>, rest: seq<seq<Subtask>>)
    ensures IdLists([first] + rest) == [IdList(first)] + IdLists(rest)
  {
  }

  lemma IdsOfList(tasks: seq<Subtask>)
    ensures (set id | id in IdList(tasks)) == IdsOf(tasks)
  {
    forall t | t in tasks ensures t.id in IdList(tasks) {
      var i :| 0 <= i < |tasks| && tasks[i] == t;
      assert IdList(tasks)[i] == t.id;
    }
  }

  /** Vec::retain with the closure of the source: ready ids move to the level, the rest stays. */
  method RetainWaiting(remaining: seq<Subtask>, completed: set<Id>)
    returns (currentLevel: seq<Id>, keep: seq<Subtask>)
    ensures currentLevel == IdList(Ready(remaining, completed))
    ensures keep == Waiting(remaining, completed)
  {
    currentLevel, keep := [], [];
    for i := 0 to |remaining|
      invariant currentLevel == IdList(ReadyTo(remaining, completed, i))
      invariant keep == WaitingTo(remaining, completed, i)
    {
      var task := remaining[i];
      if forall d :: d in task.dependencies ==> d in completed {
        IdListStep(ReadyTo(remaining, completed, i), task);
        currentLevel := currentLevel + [task.id];
      } else {
        keep := keep + [task];
      }
    }
  }

  method CollectIds(tasks: seq<Subtask>) returns (ids: seq<Id>)
    ensures ids == IdList(tasks)
  {
    ids := [];
    for i := 0 to |tasks|
      invariant ids == IdList(tasks[..i])
    {
      assert tasks[..i + 1] == tasks[..i] + [tasks[i]];
      IdListStep(tasks[..i], tasks[i]);
      ids := ids + [tasks[i].id];
    }
    assert tasks[..|tasks|] == tasks;
  }

  method BuildExecutionLevels(subtasks: seq<Subtask>) returns (levels: seq<seq<Id>>)
    ensures levels == IdLists(Plan(subtasks, {}))
    ensures IsPermutation(Concat(levels), IdList(subtasks))
  {
    LevelsArePermutation(subtasks, {});
    levels := [];
    var completed: set<Id> := {};
    var remaining := subtasks;
    while remaining != []
      invariant IdLists(Plan(subtasks, {})) == levels + IdLists(Plan(remaining, completed))
      decreases |remaining|
    {
      Partition(remaining, completed);
      ghost var rest := Plan(Waiting(remaining, completed), completed + IdsOf(Ready(remaining, completed)));
      IdListsStep(Ready(remaining, completed), rest);
      IdListsStep(remaining, []);
      var currentLevel, keep := RetainWaiting(remaining, completed);
      ghost var level := Ready(remaining, completed);
      remaining := keep;
      if currentLevel == [] && remaining != [] {
        // A cycle or a missing dependency: the rest goes out as it stands.
        level := remaining;
        currentLevel := CollectIds(remaining);
        remaining := [];
      }
      IdsOfList(level);
      completed := completed + (set id | id in currentLevel);
      if currentLevel != [] {
        levels := levels + [currentLevel];
      }
    }
  }

  // ---------------------------------------------------------------------
  // What the levels hold
  // ---------------------------------------------------------------------

  function Concat(levels: seq<seq<Id>>): seq<Id> {
    if levels == [] then [] else levels[0] + Concat(levels[1..])
  }

  /** Each id as often in one as in the other. */
  ghost predicate IsPermutation(a: seq<Id>, b: seq<Id>) {
    multiset(a) == multiset(b)
  }

  /** Every id comes out exactly as often as it went in. */
  lemma {:induction false} LevelsArePermutation(tasks: seq<Subtask>, done: set<Id>)
    ensures IsPermutation(Concat(IdLists(Plan(tasks, done))), IdList(tasks))
    decreases |tasks|
  {
    if tasks != [] {
      Partition(tasks, done);
      var ready := Ready(tasks, done);
      if ready == [] {
        assert IdLists([tasks]) == [IdList(tasks)];
        assert [IdList(tasks)][1..] == [];
        assert Concat([IdList(tasks)]) == IdList(tasks) + [] == IdList(tasks);
      } else {
        PartitionBag(tasks, done, |tasks|);
        assert tasks[..|tasks|] == tasks;
        var next := done + IdsOf(ready);
        var rest := Plan(Waiting(tasks, done), next);
        LevelsArePermutation(Waiting(tasks, done), next);
        IdListsStep(ready, rest);
        assert ([IdList(ready)] + IdLists(rest))[1..] == IdLists(rest);
      }
    }
  }

  /** The ids settled before level k. */
  function DoneBefore(plan: seq<seq<Subtask>>, done: set<Id>, k: nat): set<Id>
    requires k <= |plan|
  {
    if k == 0 then done else DoneBefore(plan, done, k - 1) + IdsOf(plan[k - 1])
  }

  lemma {:induction false} DoneShift(first: seq<Subtask>, rest: seq<seq<Subtask>>, done: set<Id>, k: nat)
    requires k <= |rest|
    ensures DoneBefore([first] + rest, done, k + 1) == DoneBefore(rest, done + IdsOf(first), k)
  {
    if k > 0 {
      DoneShift(first, rest, done, k - 1);
    }
  }

  predicate AllMet(level: seq<Subtask>, settled: set<Id>) {
    forall t :: t in level ==> Met(t, settled)
  }

  predicate NoneMet(level: seq<Subtask>, settled: set<Id>) {
    forall t :: t in level ==> !Met(t, settled)
  }

  /** All of level k could run, or none of it and it is the last. */
  predicate LevelOk(plan: seq<seq<Subtask>>, done: set<Id>, k: nat)
    requires k < |plan|
  {
    var settled := DoneBefore(plan, done, k);
    && plan[k] != []
    && (AllMet(plan[k], settled) || (k == |plan| - 1 && NoneMet(plan[k], settled)))
    && (k > 0 ==> NoneMet(plan[k], DoneBefore(plan, done, k - 1)))
  }

  lemma LevelOkShift(first: seq<Subtask>, rest: seq<seq<Subtask>>, done: set<Id>, k: nat)
    requires k < |rest| && LevelOk(rest, done + IdsOf(first), k)
    requires k == 0 ==> NoneMet(rest[0], done)
    ensures LevelOk([first] + rest, done, k + 1)
  {
    DoneShift(first, rest, done, k);
    if k > 0 {
      DoneShift(first, rest, done, k - 1);
    }
  }

  lemma ReadyAndWaiting(tasks: seq<Subtask>, done: set<Id>)
    ensures AllMet(Ready(tasks, done), done) && NoneMet(Waiting(tasks, done), done)
    ensures forall t :: t in Ready(tasks, done) ==> t in tasks
    ensures forall t :: t in Waiting(tasks, done) ==> t in tasks
    ensures Ready(tasks, done) == [] ==> NoneMet(tasks, done)
  {
    Partition(tasks, done);
    forall t ensures t in Ready(tasks, done) <==> t in tasks && Met(t, done) {
      WhoIsReady(tasks, done, |tasks|, t);
      assert tasks[..|tasks|] == tasks;
    }
    forall t ensures t in Waiting(tasks, done) <==> t in tasks && !Met(t, done) {
      WhoIsReady(tasks, done, |tasks|, t);
      assert tasks[..|tasks|] == tasks;
    }
  }

  /**
    Level by level: a level is either wholly runnable after the levels before it,
    and none of its tasks was runnable one level earlier, or it is the last level and
    none of its tasks is runnable.
   */
  lemma {:induction false} LevelsAreEarliest(tasks: seq<Subtask>, done: set<Id>, k: nat)
    requires k < |Plan(tasks, done)|
    ensures LevelOk(Plan(tasks, done), done, k)
    ensures forall t :: t in Plan(tasks, done)[k] ==> t in tasks
    decreases |tasks|
  {
    Partition(tasks, done);
    ReadyAndWaiting(tasks, done);
    var ready, waiting := Ready(tasks, done), Waiting(tasks, done);
    if ready != [] && k > 0 {
      var next := done + IdsOf(ready);
      var rest := Plan(waiting, next);
      assert Plan(tasks, done) == [ready] + rest;
      LevelsAreEarliest(waiting, next, k - 1);
      LevelOkShift(ready, rest, done, k - 1);
    }
  }

  lemma OrderStep(part: seq<Subtask>, whole: seq<Subtask>, t: Subtask)
    requires IsSubsequence(part, whole)
    ensures IsSubsequence(part + [t], whole + [t]) && IsSubsequence(part, whole + [t])
  {
    SubsequenceKeeping(part, whole, t);
    SubsequenceSkipping(part, whole, t);
  }

  lemma {:induction false} ReadyKeepsOrder(tasks: seq<Subtask>, done: set<Id>, n: nat)
    requires n <= |tasks|
    ensures IsSubsequence(ReadyTo(tasks, done, n), tasks[..n])
    ensures IsSubsequence(WaitingTo(tasks, done, n), tasks[..n])
  {
    if n > 0 {
      ReadyKeepsOrder(tasks, done, n - 1);
      var t := tasks[n - 1];
      assert tasks[..n] == tasks[..n - 1] + [t];
      OrderStep(ReadyTo(tasks, done, n - 1), tasks[..n - 1], t);
      OrderStep(WaitingTo(tasks, done, n - 1), tasks[..n - 1], t);
    }
  }

  /** Inside a level the tasks stand in the order they were given. */
  lemma {:induction false} LevelsKeepOrder(tasks: seq<Subtask>, done: set<Id>, k: nat)
    requires k < |Plan(tasks, done)|
    ensures IsSubsequence(Plan(tasks, done)[k], tasks)
    decreases |tasks|
  {
    Partition(tasks, done);
    ReadyKeepsOrder(tasks, done, |tasks|);
    assert tasks[..|tasks|] == tasks;
    var ready, waiting := Ready(tasks, done), Waiting(tasks, done);
    if ready == [] {
      SubsequenceOfItself(tasks);
    } else if k > 0 {
      var next := done + IdsOf(ready);
      assert Plan(tasks, done) == [ready] + Plan(waiting, next);
      LevelsKeepOrder(waiting, next, k - 1);
      SubsequenceTransitive(Plan(waiting, next)[k - 1], waiting, tasks);
    }
  }

  /** Every task is in some level. */
  lemma {:induction false} EveryTaskHasALevel(tasks: seq<Subtask>, done: set<Id>, t: Subtask) returns (k: nat)
    requires t in tasks
    ensures k < |Plan(tasks, done)| && t in Plan(tasks, done)[k]
    decreases |tasks|
  {
    Partition(tasks, done);
    WhoIsReady(tasks, done, |tasks|, t);
    assert tasks[..|tasks|] == tasks;
    k := 0;
    if Ready(tasks, done) != [] && !Met(t, done) {
      k := EveryTaskHasALevel(Waiting(tasks, done), done + IdsOf(Ready(tasks, done)), t);
      k := k + 1;
    }
  }

  // ---------------------------------------------------------------------
  // Levels and dependency chains
  // ---------------------------------------------------------------------

  predicate UniqueIds(tasks: seq<Subtask>) {
    forall s, t :: s in tasks && t in tasks && s.id == t.id ==> s == t
  }

  /** A chain: each task is a dependency of the next. */
  predicate Chain(tasks: seq<Subtask>, c: seq<Subtask>) {
    && c != []
    && (forall i :: 0 <= i < |c| ==> c[i] in tasks)
    && (forall i :: 0 <= i < |c| - 1 ==> Depends(c, i))
  }

  predicate Depends(c: seq<Subtask>, i: nat)
    requires i + 1 < |c|
  {
    c[i].id in c[i + 1].dependencies
  }

  predicate EndsIn(c: seq<Subtask>, t: Subtask) {
    c != [] && c[|c| - 1] == t
  }

  /** The last level holds tasks whose dependencies were never settled. */
  predicate IsForced(tasks: seq<Subtask>) {
    var plan := Plan(tasks, {});
    plan != [] && !AllMet(plan[|plan| - 1], DoneBefore(plan, {}, |plan| - 1))
  }

  predicate Runnable(tasks: seq<Subtask>, k: nat) {
    var plan := Plan(tasks, {});
    k < |plan| && AllMet(plan[k], DoneBefore(plan, {}, k))
  }

  lemma {:induction false} SettledBy(plan: seq<seq<Subtask>>, k: nat, id: Id) returns (j: nat, t: Subtask)
    requires k <= |plan| && id in DoneBefore(plan, {}, k)
    ensures j < k && t in plan[j] && t.id == id
    ensures k > 0 && id !in DoneBefore(plan, {}, k - 1) ==> j == k - 1
  {
    if id in DoneBefore(plan, {}, k - 1) {
      j, t := SettledBy(plan, k - 1, id);
    } else {
      j := k - 1;
      t :| t in plan[j] && t.id == id;
    }
  }

  lemma RunnableBefore(tasks: seq<Subtask>, j: nat, k: nat)
    requires j < k && Runnable(tasks, k)
    ensures Runnable(tasks, j)
  {
    LevelsAreEarliest(tasks, {}, j);
  }

  lemma ExtendChain(tasks: seq<Subtask>, c: seq<Subtask>, t: Subtask)
    requires Chain(tasks, c) && t in tasks && c[|c| - 1].id in t.dependencies
    ensures Chain(tasks, c + [t])
  {
    var longer := c + [t];
    forall i | 0 <= i < |longer| - 1 ensures Depends(longer, i) {
      if i < |c| - 1 {
        assert Depends(c, i);
      }
    }
  }

  /** A chain as long as the level number, plus one for the task itself. */
  lemma {:induction false} ChainUpToLevel(tasks: seq<Subtask>, k: nat, t: Subtask) returns (c: seq<Subtask>)
    requires Runnable(tasks, k) && t in Plan(tasks, {})[k]
    ensures Chain(tasks, c) && EndsIn(c, t) && |c| == k + 1
  {
    var plan := Plan(tasks, {});
    LevelsAreEarliest(tasks, {}, k);
    if k == 0 {
      c := [t];
    } else {
      var d :| d in t.dependencies && d !in DoneBefore(plan, {}, k - 1);
      assert Met(t, DoneBefore(plan, {}, k));
      var j, s := SettledBy(plan, k, d);
      RunnableBefore(tasks, j, k);
      var shorter := ChainUpToLevel(tasks, j, s);
      c := shorter + [t];
      ExtendChain(tasks, shorter, t);
    }
  }

  /** No chain is longer than that. */
  lemma {:induction false} NoLongerChain(tasks: seq<Subtask>, k: nat, t: Subtask, c: seq<Subtask>)
    requires UniqueIds(tasks)
    requires Runnable(tasks, k) && t in Plan(tasks, {})[k]
    requires Chain(tasks, c) && EndsIn(c, t)
    ensures |c| <= k + 1
    decreases k
  {
    if |c| > 1 {
      var plan := Plan(tasks, {});
      var front := c[..|c| - 1];
      var s := front[|front| - 1];
      assert Depends(c, |c| - 2);
      assert Met(t, DoneBefore(plan, {}, k));
      var j, s' := SettledBy(plan, k, s.id);
      LevelsAreEarliest(tasks, {}, j);
      assert s == s';
      RunnableBefore(tasks, j, k);
      forall i | 0 <= i < |front| - 1 ensures Depends(front, i) {
        assert Depends(c, i);
      }
      NoLongerChain(tasks, j, s, front);
    }
  }

  /**
    With unique ids, a task that is not in a forced last level stands in the level
    numbered by its longest dependency chain: k predecessors in a row, never more.
   */
  lemma LevelIsLongestChain(tasks: seq<Subtask>, k: nat, t: Subtask)
    requires UniqueIds(tasks)
    requires Runnable(tasks, k) && t in Plan(tasks, {})[k]
    ensures exists c :: Chain(tasks, c) && EndsIn(c, t) && |c| == k + 1
    ensures forall c :: Chain(tasks, c) && EndsIn(c, t) ==> |c| <= k + 1
  {
    var c := ChainUpToLevel(tasks, k, t);
    forall c | Chain(tasks, c) && EndsIn(c, t) ensures |c| <= k + 1 {
      NoLongerChain(tasks, k, t, c);
    }
  }

  // ---------------------------------------------------------------------
  // When the last level is forced
  // ---------------------------------------------------------------------

  predicate HasMissingDependency(tasks: seq<Subtask>, t: Subtask) {
    exists d :: d in t.dependencies && d !in IdsOf(tasks)
  }

  predicate Repeats(c: seq<Subtask>) {
    exists i, j :: 0 <= i < j < |c| && c[i] == c[j]
  }

  /** A chain that starts at a missing id or runs through a cycle. */
  predicate InTrouble(tasks: seq<Subtask>, c: seq<Subtask>) {
    Chain(tasks, c) && (HasMissingDependency(tasks, c[0]) || Repeats(c))
  }

  lemma {:induction false} SetSize<T>(s: seq<T>)
    ensures |set x | x in s| <= |s|
    ensures (forall i, j :: 0 <= i < j < |s| ==> s[i] != s[j]) ==> |set x | x in s| == |s|
  {
    if s == [] {
      assert (set x | x in s) == {};
    } else {
      var n := |s| - 1;
      SetSize(s[..n]);
      assert s == s[..n] + [s[n]];
      assert (set x | x in s) == (set x | x in s[..n]) + {s[n]};
    }
  }

  lemma Pigeonhole(c: seq<Subtask>, pool: seq<Subtask>)
    requires forall i :: 0 <= i < |c| ==> c[i] in pool
    requires |c| > |pool|
    ensures Repeats(c)
  {
    if !Repeats(c) {
      SetSize(c);
      SetSize(pool);
      History.SubsetSize(set x | x in c, set x | x in pool);
    }
  }

  /** From a stuck task, follow unmet dependencies until one is missing or the stuck set is exhausted. */
  lemma {:induction false} FollowStuck(tasks: seq<Subtask>, c: seq<Subtask>) returns (trouble: seq<Subtask>)
    requires IsForced(tasks) && Chain(tasks, c)
    requires forall i :: 0 <= i < |c| ==> c[i] in Plan(tasks, {})[|Plan(tasks, {})| - 1]
    ensures InTrouble(tasks, trouble)
    decreases |Plan(tasks, {})[|Plan(tasks, {})| - 1]| + 1 - |c|
  {
    var plan := Plan(tasks, {});
    var last := |plan| - 1;
    var stuck := plan[last];
    LevelsAreEarliest(tasks, {}, last);
    if |c| > |stuck| {
      Pigeonhole(c, stuck);
      return c;
    }
    var d :| d in c[0].dependencies && d !in DoneBefore(plan, {}, last);
    if d !in IdsOf(tasks) {
      return c;
    }
    var s :| s in tasks && s.id == d;
    var k := EveryTaskHasALevel(tasks, {}, s);
    DoneGrows(plan, k, last, s);
    var longer := [s] + c;
    forall i | 0 <= i < |longer| - 1 ensures Depends(longer, i) {
      if i > 0 {
        assert Depends(c, i - 1);
      }
    }
    trouble := FollowStuck(tasks, longer);
  }

  lemma {:induction false} DoneGrows(plan: seq<seq<Subtask>>, k: nat, m: nat, s: Subtask)
    requires k <= m <= |plan| && k < |plan| && s in plan[k]
    ensures k < m ==> s.id in DoneBefore(plan, {}, m)
    decreases m
  {
    if k < m - 1 {
      DoneGrows(plan, k, m - 1, s);
    }
  }

  /** Along a chain of runnable tasks the levels fall. */
  lemma {:induction false} Descend(tasks: seq<Subtask>, c: seq<Subtask>, i: nat, j: nat, kj: nat) returns (ki: nat)
    requires UniqueIds(tasks) && Chain(tasks, c) && i <= j < |c|
    requires Runnable(tasks, kj) && c[j] in Plan(tasks, {})[kj]
    ensures Runnable(tasks, ki) && c[i] in Plan(tasks, {})[ki]
    ensures ki <= kj && (i < j ==> ki < kj)
    decreases j
  {
    if i == j {
      return kj;
    }
    var plan := Plan(tasks, {});
    assert Depends(c, j - 1) && Met(c[j], DoneBefore(plan, {}, kj));
    var k, s := SettledBy(plan, kj, c[j - 1].id);
    LevelsAreEarliest(tasks, {}, k);
    assert s == c[j - 1];
    RunnableBefore(tasks, k, kj);
    ki := Descend(tasks, c, i, j - 1, k);
  }

  lemma {:induction false} NoLoop(tasks: seq<Subtask>, c: seq<Subtask>, i: nat, j: nat, k: nat)
    requires UniqueIds(tasks) && Chain(tasks, c) && i < j < |c|
    requires Runnable(tasks, k) && c[j] in Plan(tasks, {})[k]
    ensures c[i] != c[j]
    decreases k
  {
    if c[i] == c[j] {
      var lower := Descend(tasks, c, i, j, k);
      NoLoop(tasks, c, i, j, lower);
    }
  }

  lemma UnforcedIsRunnable(tasks: seq<Subtask>, k: nat)
    requires !IsForced(tasks) && k < |Plan(tasks, {})|
    ensures Runnable(tasks, k)
  {
    LevelsAreEarliest(tasks, {}, k);
  }

  lemma {:induction false} DoneAreIds(tasks: seq<Subtask>, k: nat)
    requires k <= |Plan(tasks, {})|
    ensures DoneBefore(Plan(tasks, {}), {}, k) <= IdsOf(tasks)
  {
    if k > 0 {
      DoneAreIds(tasks, k - 1);
      LevelsAreEarliest(tasks, {}, k - 1);
    }
  }

  /**
    With unique ids, the last level is forced exactly when some dependency chain
    starts at a missing id or runs through a cycle.
   */
  lemma ForcedExactlyOnTrouble(tasks: seq<Subtask>)
    requires UniqueIds(tasks)
    ensures IsForced(tasks) <==> exists c :: InTrouble(tasks, c)
  {
    if IsForced(tasks) {
      var plan := Plan(tasks, {});
      LevelsAreEarliest(tasks, {}, |plan| - 1);
      var c := FollowStuck(tasks, [plan[|plan| - 1][0]]);
    } else if exists c :: InTrouble(tasks, c) {
      var c :| InTrouble(tasks, c);
      if Repeats(c) {
        var i, j :| 0 <= i < j < |c| && c[i] == c[j];
        var k := EveryTaskHasALevel(tasks, {}, c[j]);
        UnforcedIsRunnable(tasks, k);
        NoLoop(tasks, c, i, j, k);
      } else {
        var k := EveryTaskHasALevel(tasks, {}, c[0]);
        UnforcedIsRunnable(tasks, k);
        DoneAreIds(tasks, k);
      }
      assert false;
    }
  }

  /** Each member waits for an id that only members carry, or nobody does. */
  ghost predicate StuckSet(tasks: seq<Subtask>, stuck: set<Subtask>) {
    stuck != {} && forall t :: t in stuck ==> t in tasks && exists d :: WaitsInside(tasks, stuck, t, d)
  }

  ghost predicate WaitsInside(tasks: seq<Subtask>, stuck: set<Subtask>, t: Subtask, d: Id) {
    d in t.dependencies && forall s :: s in tasks && s.id == d ==> s in stuck
  }

  lemma {:induction false} StuckNeverRuns(tasks: seq<Subtask>, stuck: set<Subtask>, k: nat, t: Subtask)
    requires StuckSet(tasks, stuck) && t in stuck
    requires k < |Plan(tasks, {})| && t in Plan(tasks, {})[k]
    ensures !Runnable(tasks, k)
    decreases k
  {
    if Runnable(tasks, k) {
      var plan := Plan(tasks, {});
      var d :| WaitsInside(tasks, stuck, t, d);
      assert Met(t, DoneBefore(plan, {}, k));
      var j, s := SettledBy(plan, k, d);
      LevelsAreEarliest(tasks, {}, j);
      RunnableBefore(tasks, j, k);
      StuckNeverRuns(tasks, stuck, j, s);
      assert false;
    }
  }

  /**
    For any input, unique ids or not: the last level is forced exactly when some
    tasks each wait for an id that no task outside them could settle.
   */
  lemma ForcedExactlyOnStuckSet(tasks: seq<Subtask>)
    ensures IsForced(tasks) <==> exists stuck :: StuckSet(tasks, stuck)
  {
    var plan := Plan(tasks, {});
    if IsForced(tasks) {
      var last := |plan| - 1;
      LevelsAreEarliest(tasks, {}, last);
      var stuck := set t | t in plan[last];
      assert plan[last][0] in stuck;
      forall t | t in stuck ensures exists d :: WaitsInside(tasks, stuck, t, d) {
        var d :| d in t.dependencies && d !in DoneBefore(plan, {}, last);
        forall s | s in tasks && s.id == d ensures s in stuck {
          var k := EveryTaskHasALevel(tasks, {}, s);
          DoneGrows(plan, k, last, s);
        }
        assert WaitsInside(tasks, stuck, t, d);
      }
      assert StuckSet(tasks, stuck);
    }
    if stuck :| StuckSet(tasks, stuck) {
      var t :| t in stuck;
      var k := EveryTaskHasALevel(tasks, {}, t);
      StuckNeverRuns(tasks, stuck, k, t);
      if !IsForced(tasks) {
        UnforcedIsRunnable(tasks, k);
      }
    }
  }

  /**
    Without unique ids the equivalence fails: here B waits for A, one of the two
    tasks called A waits for B, and yet every task becomes runnable in turn.
   */
  lemma DuplicateIdsBreakTheCycle()
    ensures exists tasks, c :: !UniqueIds(tasks) && InTrouble(tasks, c) && !IsForced(tasks)
  {
    var a, a', b := Subtask(Id("A"), [Id("B")]), Subtask(Id("A"), []), Subtask(Id("B"), [Id("A")]);
    var tasks := [a, a', b];
    var c := [a, b, a];
    assert Depends(c, 0) && Depends(c, 1) && c[0] == c[2];
    assert tasks[0].id == tasks[1].id && tasks[0] != tasks[1];
    assert tasks[0] == a && tasks[1] == a' && tasks[2] == b;
    forall stuck ensures !StuckSet(tasks, stuck) {
      // a' waits for nothing, so A can be settled from outside, and then B.
      assert forall d :: !WaitsInside(tasks, stuck, a', d);
      assert a' !in stuck ==> forall d :: !WaitsInside(tasks, stuck, b, d);
      assert b !in stuck ==> forall d :: !WaitsInside(tasks, stuck, a, d);
    }
    ForcedExactlyOnStuckSet(tasks);
    assert !UniqueIds(tasks) && InTrouble(tasks, c) && !IsForced(tasks);
  }
}
