/** The health-check state machine of a supervised agent, over whole histories of results. */
module Health {

  datatype AgentState = Starting | Running | Unhealthy | Stopped | Failed | Terminated

  datatype Transition = Transition(
    state: AgentState, failures: nat, successes: nat, recovered: bool, becameUnhealthy: bool)

  datatype Event = BecameUnhealthy | BecameHealthy

  /** Counters and thresholds are u32. */
  const U32_MAX: nat := 0xFFFF_FFFF

  function SaturatingInc(n: nat): nat {
    if n >= U32_MAX then U32_MAX else n + 1
  }

  function AtLeast1(n: nat): nat {
    if n == 0 then 1 else n
  }

  /** apply_health_result: one check result folded into state and counters. */
  function ApplyHealthResult(state: AgentState, passed: bool, failures: nat, successes: nat,
                             failureThreshold: nat, successThreshold: nat): Transition
  {
    if passed then
      var count := if state == Unhealthy then SaturatingInc(successes) else 0;
      var recovered := state == Unhealthy && count >= AtLeast1(successThreshold);
      Transition(if recovered then Running else state, 0, if recovered then 0 else count, recovered, false)
    else
      var count := SaturatingInc(failures);
      var became := state == Running && count >= AtLeast1(failureThreshold);
      Transition(if became then Unhealthy else state, count, 0, false, became)
  }

  /** The machine after the first n results, from Running with clear counters. */
  function Fold(history: seq<bool>, n: nat, failureThreshold: nat, successThreshold: nat): Transition
    requires n <= |history|
  {
    if n == 0 then Transition(Running, 0, 0, false, false)
    else
      var t := Fold(history, n - 1, failureThreshold, successThreshold);
      ApplyHealthResult(t.state, history[n - 1], t.failures, t.successes, failureThreshold, successThreshold)
  }

  /** How many of the first n results, counted from the last one back, equal `value` without a break. */
  function TrailingRun(history: seq<bool>, n: nat, value: bool): nat
    requires n <= |history|
  {
    if n == 0 || history[n - 1] != value then 0 else 1 + TrailingRun(history, n - 1, value)
  }

  /** The results from i to i + length - 1 all equal `value`. */
  predicate RunAt(history: seq<bool>, i: nat, length: nat, value: bool) {
    i + length <= |history| && forall k :: i <= k < i + length ==> history[k] == value
  }

  /** Among the first n results, a run of passes long enough starts at or after i. */
  predicate PassesAfter(history: seq<bool>, n: nat, i: nat, successThreshold: nat)
    requires n <= |history|
  {
    exists j :: i <= j < n && j + successThreshold <= n && RunAt(history, j, successThreshold, true)
  }

  /** Among the first n results, a run of failures long enough ends at i and no such pass run follows. */
  predicate DegradedAt(history: seq<bool>, n: nat, i: nat, failureThreshold: nat, successThreshold: nat)
    requires n <= |history|
  {
    && failureThreshold <= i <= n && RunAt(history, i - failureThreshold, failureThreshold, false)
    && !PassesAfter(history, n, i, successThreshold)
  }

  predicate Degraded(history: seq<bool>, n: nat, failureThreshold: nat, successThreshold: nat)
    requires n <= |history|
  {
    exists i | 0 <= i <= n :: DegradedAt(history, n, i, failureThreshold, successThreshold)
  }

  lemma {:induction false} TrailingRunIsRun(history: seq<bool>, n: nat, value: bool, length: nat)
    requires n <= |history| && length <= n
    ensures RunAt(history, n - length, length, value) <==> length <= TrailingRun(history, n, value)
  {
    if length > 0 && history[n - 1] == value {
      TrailingRunIsRun(history, n - 1, value, length - 1);
      assert RunAt(history, n - 1 - (length - 1), length - 1, value) <==> RunAt(history, n - length, length, value);
    } else if length > 0 {
      assert n - length <= n - 1 < n - length + length;
    }
  }

  lemma {:induction false} TrailingRunBound(history: seq<bool>, n: nat, value: bool)
    requires n <= |history|
    ensures TrailingRun(history, n, value) <= n
  {
    if n > 0 {
      TrailingRunBound(history, n - 1, value);
    }
  }

  function Saturated(n: nat): nat {
    if n > U32_MAX then U32_MAX else n
  }

  /** What the counters mean: the trailing runs, up to saturation. */
  lemma {:induction false} CountersAreTrailingRuns(history: seq<bool>, n: nat, f: nat, s: nat)
    requires n <= |history| && f <= U32_MAX && s <= U32_MAX
    ensures var t := Fold(history, n, f, s);
      && (t.state == Running || t.state == Unhealthy)
      && t.failures == Saturated(TrailingRun(history, n, false))
      && (t.state == Running ==> t.successes == 0 && TrailingRun(history, n, false) < AtLeast1(f))
      && (t.state == Unhealthy ==>
            t.successes == TrailingRun(history, n, true) && TrailingRun(history, n, true) < AtLeast1(s))
  {
    if n > 0 {
      CountersAreTrailingRuns(history, n - 1, f, s);
    }
  }

  /** A later result can only add a pass run that ends with it. */
  lemma OneMoreResult(history: seq<bool>, n: nat, i: nat, s: nat)
    requires 0 < n <= |history| && i <= n && 0 < s
    ensures PassesAfter(history, n, i, s) <==>
      (i < n && PassesAfter(history, n - 1, i, s)) || (i + s <= n && s <= TrailingRun(history, n, true))
  {
    if i + s <= n && s <= TrailingRun(history, n, true) {
      TrailingRunIsRun(history, n, true, s);
      assert RunAt(history, n - s, s, true);
    }
    if PassesAfter(history, n, i, s) {
      var j :| i <= j < n && j + s <= n && RunAt(history, j, s, true);
      if j + s == n {
        TrailingRunIsRun(history, n, true, s);
      }
    }
  }

  /** Trailing passes are all after the last failure, so after any failure run. */
  lemma PassesFollowFailures(history: seq<bool>, n: nat, i: nat, f: nat, s: nat)
    requires n <= |history| && 0 < f <= i <= n && 0 < s <= TrailingRun(history, n, true)
    requires RunAt(history, i - f, f, false)
    ensures i + s <= n
  {
    TrailingRunBound(history, n, true);
    TrailingRunIsRun(history, n, true, s);
    assert !history[i - 1];
  }

  lemma DegradedStep(history: seq<bool>, n: nat, i: nat, f: nat, s: nat)
    requires 0 < n <= |history| && i <= n && 0 < f && 0 < s
    ensures DegradedAt(history, n, i, f, s) <==>
      && TrailingRun(history, n, true) < s
      && if i < n then DegradedAt(history, n - 1, i, f, s) else f <= TrailingRun(history, n, false)
  {
    OneMoreResult(history, n, i, s);
    if f <= i {
      if i == n {
        TrailingRunIsRun(history, n, false, f);
      }
      if RunAt(history, i - f, f, false) && s <= TrailingRun(history, n, true) {
        PassesFollowFailures(history, n, i, f, s);
      }
    }
    TrailingRunBound(history, n, false);
  }

  /**
    What the machine decides, without its counters: after any history it is Unhealthy
    exactly when some failure_threshold results in a row failed and no success_threshold
    results in a row passed afterwards.
   */
  lemma {:induction false} UnhealthyExactlyWhenDegraded(history: seq<bool>, n: nat, f: nat, s: nat)
    requires n <= |history| && f <= U32_MAX && s <= U32_MAX
    ensures Fold(history, n, f, s).state == Unhealthy <==> Degraded(history, n, AtLeast1(f), AtLeast1(s))
  {
    var F, S := AtLeast1(f), AtLeast1(s);
    if n > 0 {
      UnhealthyExactlyWhenDegraded(history, n - 1, f, s);
      CountersAreTrailingRuns(history, n - 1, f, s);
      CountersAreTrailingRuns(history, n, f, s);
      forall i: nat | i <= n ensures DegradedAt(history, n, i, F, S) <==>
        TrailingRun(history, n, true) < S &&
        if i < n then DegradedAt(history, n - 1, i, F, S) else F <= TrailingRun(history, n, false)
      {
        DegradedStep(history, n, i, F, S);
      }
      if Fold(history, n, f, s).state == Unhealthy {
        if Fold(history, n - 1, f, s).state == Unhealthy {
          var i :| 0 <= i <= n - 1 && DegradedAt(history, n - 1, i, F, S);
          assert DegradedAt(history, n, i, F, S);
        } else {
          assert DegradedAt(history, n, n, F, S);
        }
      } else {
        forall i: nat | i <= n ensures !DegradedAt(history, n, i, F, S) {
          assert Fold(history, n - 1, f, s).state == Running && i < n ==> !DegradedAt(history, n - 1, i, F, S);
        }
      }
    }
  }

  /** The thresholds in numbers; a threshold of 0 counts as 1. */
  lemma UnhealthyInNumbers(history: seq<bool>, n: nat, f: nat, s: nat)
    requires n <= |history| && f <= U32_MAX && s <= U32_MAX
    ensures f > 0 && s > 0 ==> (Fold(history, n, f, s).state == Unhealthy <==> Degraded(history, n, f, s))
    ensures f == 0 ==> Fold(history, n, f, s).state == Fold(history, n, 1, s).state
    ensures s == 0 ==> Fold(history, n, f, s).state == Fold(history, n, f, 1).state
  {
    UnhealthyExactlyWhenDegraded(history, n, f, s);
    ZeroCountsAsOne(history, n, f, s);
  }

  lemma {:induction false} ZeroCountsAsOne(history: seq<bool>, n: nat, f: nat, s: nat)
    requires n <= |history|
    ensures f == 0 ==> Fold(history, n, 0, s) == Fold(history, n, 1, s)
    ensures s == 0 ==> Fold(history, n, f, 0) == Fold(history, n, f, 1)
  {
    if n > 0 {
      ZeroCountsAsOne(history, n - 1, f, s);
    }
  }

  // ---------------------------------------------------------------------
  // Events
  // ---------------------------------------------------------------------

  /** The events emitted for the first n results, in order. */
  function Events(history: seq<bool>, n: nat, f: nat, s: nat): seq<Event>
    requires n <= |history|
  {
    if n == 0 then []
    else
      var t := Fold(history, n, f, s);
      var before := Events(history, n - 1, f, s);
      var mid := if t.recovered then before + [BecameHealthy] else before;
      if t.becameUnhealthy then mid + [BecameUnhealthy] else mid
  }

  /** Degrade and recover events strictly alternate, starting with a degrade; the last one tells the state. */
  lemma {:induction false} EventsAlternate(history: seq<bool>, n: nat, f: nat, s: nat)
    requires n <= |history|
    ensures var events := Events(history, n, f, s);
      && (forall k :: 0 <= k < |events| ==> events[k] == if k % 2 == 0 then BecameUnhealthy else BecameHealthy)
      && (Fold(history, n, f, s).state == Unhealthy <==> |events| % 2 == 1)
      && Fold(history, n, f, s).state in {Running, Unhealthy}
    ensures n > 0 ==>
              && Events(history, n - 1, f, s) <= Events(history, n, f, s)
              && |Events(history, n, f, s)| - |Events(history, n - 1, f, s)| ==
                   if Fold(history, n, f, s).state == Fold(history, n - 1, f, s).state then 0 else 1
  {
    if n > 0 {
      EventsAlternate(history, n - 1, f, s);
    }
  }

  /** The machine after the first n results, from any state with any counters. */
  function FoldFrom(start: Transition, history: seq<bool>, n: nat, f: nat, s: nat): Transition
    requires n <= |history|
  {
    if n == 0 then start
    else
      var t := FoldFrom(start, history, n - 1, f, s);
      ApplyHealthResult(t.state, history[n - 1], t.failures, t.successes, f, s)
  }

  /** No history of results moves an agent that neither runs nor is unhealthy, or raises an event for it. */
  lemma {:induction false} OtherStatesNeverMove(start: Transition, history: seq<bool>, n: nat, f: nat, s: nat)
    requires n <= |history| && start.state != Running && start.state != Unhealthy
    requires !start.recovered && !start.becameUnhealthy
    ensures var t := FoldFrom(start, history, n, f, s);
      t.state == start.state && !t.recovered && !t.becameUnhealthy
  {
    if n > 0 {
      OtherStatesNeverMove(start, history, n - 1, f, s);
    }
  }

  lemma {:induction false} FoldIsFromRunning(history: seq<bool>, n: nat, f: nat, s: nat)
    requires n <= |history|
    ensures Fold(history, n, f, s) == FoldFrom(Transition(Running, 0, 0, false, false), history, n, f, s)
  {
    if n > 0 {
      FoldIsFromRunning(history, n - 1, f, s);
    }
  }
}
