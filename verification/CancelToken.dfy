/**
  The cancellation token as interleaved atomic steps of any number of waiters and
  cancellers: check, register, re-check, park against store, notify.

  notify_waiters wakes the waiters registered at that moment and leaves nothing
  behind for later ones; a waiter registers with Notified::enable.
 */
module CancelToken {
  import opened Wrappers

  /** Where a call of cancelled() stands; `woken` is set by notify_waiters once it is registered. */
  datatype Waiter =
    | Checking
    | Creating
    | Enabling
    | Rechecking(woken: bool)
    | Parked(woken: bool)
    | Returned

  /** Where a call of cancel() stands. */
  datatype Canceller = Storing | Notifying | Finished

  datatype State = State(flag: bool, waiters: map<nat, Waiter>, cancellers: map<nat, Canceller>)

  datatype Step =
    | StartWaiting(w: nat)
    | StartCancel(c: nat)
    | Advance(w: nat)
    | Drop(w: nat)
    | Store(c: nat)
    | Notify(c: nat)

  const FRESH := State(false, map[], map[])

  /** One step of a waiter; None when it is parked and nobody has woken it. */
  function AdvanceWaiter(flag: bool, w: Waiter): Option<Waiter> {
    match w
    case Checking => Some(if flag then Returned else Creating)
    case Creating => Some(Enabling)
    case Enabling => Some(Rechecking(false))
    case Rechecking(woken) => Some(if flag then Returned else Parked(woken))
    case Parked(woken) => if woken then Some(Checking) else None
    case Returned => None
  }

  function Wake(w: Waiter): Waiter {
    match w
    case Rechecking(_) => Rechecking(true)
    case Parked(_) => Parked(true)
    case _ => w
  }

  function Next(s: State, step: Step): Option<State> {
    match step
    case StartWaiting(w) => if w in s.waiters then None else Some(s.(waiters := s.waiters[w := Checking]))
    case StartCancel(c) => if c in s.cancellers then None else Some(s.(cancellers := s.cancellers[c := Storing]))
    case Advance(w) =>
      if w !in s.waiters then None
      else
        var next := AdvanceWaiter(s.flag, s.waiters[w]);
        if next.None? then None else Some(s.(waiters := s.waiters[w := next.value]))
    case Drop(w) =>
      // A select! that took another branch drops the future wherever it stands.
      if w !in s.waiters then None else Some(s.(waiters := s.waiters - {w}))
    case Store(c) =>
      if c !in s.cancellers || s.cancellers[c] != Storing then None
      else Some(State(true, s.waiters, s.cancellers[c := Notifying]))
    case Notify(c) =>
      if c !in s.cancellers || s.cancellers[c] != Notifying then None
      else Some(State(s.flag, map w | w in s.waiters :: Wake(s.waiters[w]), s.cancellers[c := Finished]))
  }

  /** Running the steps in order; None as soon as one is not enabled. */
  function Run(s: State, steps: seq<Step>): Option<State>
    decreases |steps|
  {
    if steps == [] then Some(s)
    else match Next(s, steps[0])
      case None => None
      case Some(next) => Run(next, steps[1..])
  }

  /** Some canceller has stored the flag and not yet notified. */
  predicate NotifyPending(s: State) {
    exists c :: c in s.cancellers && s.cancellers[c] == Notifying
  }

  predicate Inv(s: State) {
    && (s.flag <==> exists c :: c in s.cancellers && s.cancellers[c] != Storing)
    && (forall w :: w in s.waiters && s.waiters[w] == Returned ==> s.flag)
    && (forall w :: w in s.waiters && (s.waiters[w] == Parked(true) || s.waiters[w] == Rechecking(true)) ==> s.flag)
    && (forall w :: w in s.waiters && s.waiters[w] == Parked(false) && s.flag ==> NotifyPending(s))
  }

  lemma StepKeepsInv(s: State, step: Step)
    requires Inv(s) && Next(s, step).Some?
    ensures Inv(Next(s, step).value)
    ensures s.flag ==> Next(s, step).value.flag
  {
    var next := Next(s, step).value;
    match step
    case StartCancel(c) =>
      assert forall d :: d in s.cancellers ==> d in next.cancellers && next.cancellers[d] == s.cancellers[d];
    case Store(c) =>
      assert next.cancellers[c] == Notifying;
    case Notify(c) =>
      assert next.cancellers[c] == Finished;
      assert s.cancellers[c] != Storing;
    case _ =>
      assert next.cancellers == s.cancellers;
  }

  lemma {:induction false} RunKeepsInv(s: State, steps: seq<Step>)
    requires Inv(s) && Run(s, steps).Some?
    ensures Inv(Run(s, steps).value)
    ensures s.flag ==> Run(s, steps).value.flag
    decreases |steps|
  {
    if steps != [] {
      StepKeepsInv(s, steps[0]);
      RunKeepsInv(Next(s, steps[0]).value, steps[1..]);
    }
  }

  /**
    No lost wakeup, in any interleaving from a fresh token: once the flag is set and
    every canceller that stored it has notified, no waiter is parked without a
    wakeup; and a waiter only ever returns from a token that was cancelled.
   */
  lemma NoLostWakeup(steps: seq<Step>)
    requires Run(FRESH, steps).Some?
    ensures var s := Run(FRESH, steps).value;
      && (s.flag && !NotifyPending(s) ==> forall w :: w in s.waiters ==> s.waiters[w] != Parked(false))
      && (forall w :: w in s.waiters && s.waiters[w] == Returned ==>
            exists c :: c in s.cancellers && s.cancellers[c] != Storing)
  {
    RunKeepsInv(FRESH, steps);
  }

  // ---------------------------------------------------------------------
  // Once cancelled, every waiter is out within three steps of its own
  // ---------------------------------------------------------------------

  /** Steps a waiter still has before it, once the flag is set. */
  function StepsLeft(w: Waiter): nat {
    match w
    case Checking => 1
    case Creating => 3
    case Enabling => 2
    case Rechecking(_) => 1
    case Parked(_) => 2
    case Returned => 0
  }

  function OwnSteps(steps: seq<Step>, w: nat): nat {
    if steps == [] then 0 else (if steps[0] == Advance(w) then 1 else 0) + OwnSteps(steps[1..], w)
  }

  lemma OneStepCounts(s: State, step: Step, w: nat)
    requires s.flag && w in s.waiters && step != Drop(w)
    requires Next(s, step).Some?
    ensures var next := Next(s, step).value;
      && next.flag && w in next.waiters
      && StepsLeft(next.waiters[w]) == StepsLeft(s.waiters[w]) - (if step == Advance(w) then 1 else 0)
  {
  }

  /**
    After the flag is set a waiter that is not dropped counts down by exactly one
    with each step of its own and by nothing else: it takes at most three, and when
    they are used up it has returned.
   */
  lemma {:induction false} WaitersReturnInThreeSteps(s: State, steps: seq<Step>, w: nat)
    requires s.flag && w in s.waiters && Run(s, steps).Some?
    requires Drop(w) !in steps
    ensures var end := Run(s, steps).value;
      && w in end.waiters
      && OwnSteps(steps, w) + StepsLeft(end.waiters[w]) == StepsLeft(s.waiters[w]) <= 3
      && (OwnSteps(steps, w) == StepsLeft(s.waiters[w]) <==> end.waiters[w] == Returned)
    decreases |steps|
  {
    if steps != [] {
      OneStepCounts(s, steps[0], w);
      WaitersReturnInThreeSteps(Next(s, steps[0]).value, steps[1..], w);
    }
  }

  /**
    Nobody is stuck meanwhile: in a reachable cancelled state each waiter has either
    returned, or can take its next step, or waits for a canceller whose notify is
    enabled and makes that step possible.
   */
  lemma CancelledWaitersCanMove(steps: seq<Step>, w: nat)
    requires Run(FRESH, steps).Some?
    requires var s := Run(FRESH, steps).value; s.flag && w in s.waiters && s.waiters[w] != Returned
    ensures var s := Run(FRESH, steps).value;
      || Next(s, Advance(w)).Some?
      || exists c :: Next(s, Notify(c)).Some? && Next(Next(s, Notify(c)).value, Advance(w)).Some?
  {
    RunKeepsInv(FRESH, steps);
    var s := Run(FRESH, steps).value;
    if s.waiters[w] == Parked(false) {
      var c :| c in s.cancellers && s.cancellers[c] == Notifying;
      assert Next(s, Notify(c)).Some?;
      var next := Next(s, Notify(c)).value;
      assert next.waiters[w] == Parked(true);
    }
  }

  // ---------------------------------------------------------------------
  // Who can move
  // ---------------------------------------------------------------------

  /** Anybody may start to wait, to cancel, or stop waiting, at any time. */
  lemma AnybodyCanStart(s: State, id: nat)
    ensures id !in s.waiters ==> Next(s, StartWaiting(id)) == Some(s.(waiters := s.waiters[id := Checking]))
    ensures id !in s.cancellers ==> Next(s, StartCancel(id)) == Some(s.(cancellers := s.cancellers[id := Storing]))
    ensures id in s.waiters ==> Next(s, Drop(id)).Some? && id !in Next(s, Drop(id)).value.waiters
  {
  }

  /** A cancel takes two steps of its own, nobody can hold it up, and it wakes whoever is registered. */
  lemma CancelTakesTwoSteps(s: State, c: nat, w: nat)
    requires c in s.cancellers && s.cancellers[c] == Storing
    ensures var stored := Next(s, Store(c));
      && stored.Some? && stored.value.flag && stored.value.waiters == s.waiters
      && var notified := Next(stored.value, Notify(c));
         && notified.Some? && notified.value.flag && notified.value.cancellers[c] == Finished
         && (w in s.waiters && s.waiters[w].Parked? ==> notified.value.waiters[w] == Parked(true))
         && (w in s.waiters && s.waiters[w].Rechecking? ==> notified.value.waiters[w] == Rechecking(true))
         && (w in s.waiters && !s.waiters[w].Parked? && !s.waiters[w].Rechecking? ==> notified.value.waiters[w] == s.waiters[w])
  {
  }

  /** A parked waiter stays parked until somebody notifies or it is dropped; everybody else who has not returned can move. */
  lemma ParkedStaysParked(s: State, step: Step, w: nat)
    requires w in s.waiters && s.waiters[w] == Parked(false) && Next(s, step).Some?
    ensures !step.Notify? && step != Drop(w) ==>
              w in Next(s, step).value.waiters && Next(s, step).value.waiters[w] == Parked(false)
  {
  }

  lemma OthersCanMove(s: State, w: nat)
    requires w in s.waiters
    ensures Next(s, Advance(w)).Some? <==> s.waiters[w] != Parked(false) && s.waiters[w] != Returned
  {
  }

  /** Without a cancel, nobody ever returns. */
  lemma {:induction false} NobodyReturnsUncancelled(steps: seq<Step>, w: nat)
    requires Run(FRESH, steps).Some? && forall i :: 0 <= i < |steps| ==> !steps[i].Store?
    ensures var s := Run(FRESH, steps).value; !s.flag && (w in s.waiters ==> s.waiters[w] != Returned)
  {
    FlagStaysDown(FRESH, steps);
    RunKeepsInv(FRESH, steps);
  }

  lemma {:induction false} FlagStaysDown(s: State, steps: seq<Step>)
    requires !s.flag && Run(s, steps).Some? && forall i :: 0 <= i < |steps| ==> !steps[i].Store?
    ensures !Run(s, steps).value.flag
    decreases |steps|
  {
    if steps != [] {
      FlagStaysDown(Next(s, steps[0]).value, steps[1..]);
    }
  }
}
