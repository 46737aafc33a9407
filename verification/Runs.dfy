/**
  Whole runs of the operations that change a context's list: what the pin and the
  message cap keep over any of them.
 */
module Runs {
  import opened Wrappers
  import opened History

  /**
    What the operations of AgentContext do to the numbered history.  Add pushes and
    then enforces the message cap; Append is a push straight onto the public list,
    which does not, so that lists above the cap occur between two Adds.  Shrink(k)
    stands for truncate_to_limit, replace_with_summary, drop_oldest and compress:
    each of them is proved to be a Cut by some k in AgentContext.dfy.
   */
  datatype Op =
    | Add(id: nat)
    | Append(id: nat)
    | Pin
    | Shrink(k: nat)
  {
    predicate IsArrival() {
      Add? || Append?
    }
  }

  function TrimCount(length: nat, maxMessages: nat): nat {
    if length <= maxMessages || length == 0 then 0
    else if maxMessages == 0 then length - 1
    else length - maxMessages
  }

  function Push<T>(h: History<T>, item: T): History<T> {
    History(h.items + [item], h.pin)
  }

  function PinLast<T>(h: History<T>): History<T> {
    h.(pin := if h.items == [] then None else Some(|h.items| - 1))
  }

  function Apply(h: History<nat>, op: Op, maxMessages: nat): History<nat> {
    match op
    case Add(id) =>
      var pushed := Push(h, id);
      Cut(pushed, TrimCount(|pushed.items|, maxMessages))
    case Append(id) => Push(h, id)
    case Pin => PinLast(h)
    case Shrink(k) => Cut(h, if k <= MaxCut(h) then k else MaxCut(h))
  }

  function Run(h: History<nat>, ops: seq<Op>, maxMessages: nat): History<nat>
    decreases |ops|
  {
    if ops == [] then h
    else Run(Apply(h, ops[0], maxMessages), ops[1..], maxMessages)
  }

  /** Arrivals are numbered upwards, from a number above everything held. */
  predicate Fresh(h: History<nat>, ops: seq<Op>) {
    && Increasing(h.items)
    && (forall i, j :: 0 <= i < |h.items| && 0 <= j < |ops| && ops[j].IsArrival() ==> h.items[i] < ops[j].id)
    && (forall i, j :: 0 <= i < j < |ops| && ops[i].IsArrival() && ops[j].IsArrival() ==> ops[i].id < ops[j].id)
  }

  /** One of the operations brought x in. */
  predicate Arrived(ops: seq<Op>, x: nat) {
    exists i :: 0 <= i < |ops| && ops[i].IsArrival() && ops[i].id == x
  }

  lemma CutKeepsFresh(h: History<nat>, k: nat, later: seq<Op>)
    requires h.Valid() && Fresh(h, later)
    requires k < |h.items|
    ensures Fresh(Cut(h, k), later)
    ensures forall x :: x in Cut(h, k).items ==> x in h.items
  {
  }

  /** What one operation keeps: the pin's range and the numbering, and, but for Pin, the pinned entry. */
  predicate Keeps(h: History<nat>, op: Op, next: History<nat>, later: seq<Op>) {
    && next.Valid() && Fresh(next, later)
    && (h.items != [] ==> next.items != [])
    && (h.items != [] && !op.Pin? ==> next.Pinned() == h.Pinned())
    && (forall x :: x in next.items ==> x in h.items || (op.IsArrival() && x == op.id))
  }

  lemma PushKeeps(h: History<nat>, op: Op, later: seq<Op>)
    requires op.IsArrival() && h.Valid() && Fresh(h, [op] + later)
    ensures Keeps(h, op, Push(h, op.id), later)
  {
    var ops := [op] + later;
    assert ops[0] == op && forall j :: 0 <= j < |later| ==> ops[j + 1] == later[j];
  }

  lemma CutKeeps(h: History<nat>, op: Op, mid: History<nat>, k: nat, later: seq<Op>)
    requires mid.Valid() && k <= MaxCut(mid) && Keeps(h, op, mid, later)
    ensures Keeps(h, op, Cut(mid, k), later)
  {
    if mid.items != [] {
      CutKeepsPinAndOrder(mid, k);
      CutKeepsFresh(mid, k, later);
    }
  }

  lemma StillFresh(h: History<nat>, op: Op, later: seq<Op>)
    requires h.Valid() && Fresh(h, [op] + later)
    ensures Keeps(h, op, h, later)
  {
    var ops := [op] + later;
    assert forall j :: 0 <= j < |later| ==> ops[j + 1] == later[j];
  }

  lemma AddKeeps(h: History<nat>, id: nat, later: seq<Op>, maxMessages: nat)
    requires h.Valid() && Fresh(h, [Add(id)] + later)
    ensures Keeps(h, Add(id), Apply(h, Add(id), maxMessages), later)
  {
    PushKeeps(h, Add(id), later);
    CutKeeps(h, Add(id), Push(h, id), TrimCount(|h.items| + 1, maxMessages), later);
  }

  lemma StepKeeps(h: History<nat>, op: Op, later: seq<Op>, maxMessages: nat)
    requires h.Valid() && Fresh(h, [op] + later)
    ensures Keeps(h, op, Apply(h, op, maxMessages), later)
  {
    match op
    case Add(id) => AddKeeps(h, id, later, maxMessages);
    case Append(id) => PushKeeps(h, op, later);
    case Pin => StillFresh(h, op, later);
    case Shrink(k) =>
      StillFresh(h, op, later);
      CutKeeps(h, op, h, if k <= MaxCut(h) then k else MaxCut(h), later);
  }

  /**
    The live request survives every run.  After any operations of any kind
    following a Pin (none of them a Pin), the history still holds the entry that
    was pinned, the pin still names it, the survivors are in arrival order, and
    nothing is held that was not there or added.
   */
  lemma {:induction false} RunKeepsTheLiveRequest(h: History<nat>, ops: seq<Op>, maxMessages: nat)
    requires h.Valid() && Fresh(h, ops)
    ensures var end := Run(h, ops, maxMessages);
      && end.Valid() && Increasing(end.items)
      && (h.items != [] ==> end.items != [])
      && (h.items != [] && (forall i :: 0 <= i < |ops| ==> !ops[i].Pin?) ==> end.Pinned() == h.Pinned())
      && (forall x :: x in end.items ==> x in h.items || Arrived(ops, x))
    decreases |ops|
  {
    if ops != [] {
      assert ops == [ops[0]] + ops[1..];
      StepKeeps(h, ops[0], ops[1..], maxMessages);
      var next := Apply(h, ops[0], maxMessages);
      RunKeepsTheLiveRequest(next, ops[1..], maxMessages);
      var end := Run(h, ops, maxMessages);
      forall x | x in end.items && x !in h.items ensures Arrived(ops, x) {
        if x !in next.items {
          var i :| 0 <= i < |ops[1..]| && ops[1..][i].IsArrival() && ops[1..][i].id == x;
          assert ops[i + 1].IsArrival() && ops[i + 1].id == x;
        } else {
          assert ops[0].IsArrival() && ops[0].id == x;
        }
      }
    }
  }

  /**
    pin_live_request is meant to mark "the message just pushed".  It does so
    exactly when the message cap leaves room for two messages or the list was
    empty: under a cap of 0 or 1 the trim inside the add removes the new message
    and the pin stays on the old one.
   */
  lemma AddThenPinPinsTheNewMessage(h: History<nat>, id: nat, maxMessages: nat)
    requires h.Valid() && Fresh(h, [Add(id)])
    ensures var end := Apply(Apply(h, Add(id), maxMessages), Pin, maxMessages);
      && end.items != []
      && (end.Pinned() == id <==> maxMessages >= 2 || h.items == [])
  {
    var pushed := Push(h, id);
    var k := TrimCount(|pushed.items|, maxMessages);
    var added := Apply(h, Add(id), maxMessages);
    assert [Add(id)][0] == Add(id);
    CutShape(pushed, k);
    assert pushed.items[|pushed.items| - 1] == id;
    if maxMessages < 2 && h.items != [] {
      assert added.items == [pushed.items[pushed.PinnedIndex()]];
      assert pushed.items[pushed.PinnedIndex()] == h.items[h.PinnedIndex()];
      assert h.items[h.PinnedIndex()] < id;
    }
  }

  // ---------------------------------------------------------------------
  // The message cap
  // ---------------------------------------------------------------------

  /** An add leaves as many as the cap allows, and never fewer than it must; the others never make the list longer. */
  lemma StepKeepsCap(h: History<nat>, op: Op, maxMessages: nat)
    requires h.Valid()
    ensures Apply(h, op, maxMessages).Valid()
    ensures op.Add? ==>
              |Apply(h, op, maxMessages).items| ==
                if |h.items| < maxMessages then |h.items| + 1 else if maxMessages == 0 then 1 else maxMessages
    ensures op.Append? ==> |Apply(h, op, maxMessages).items| == |h.items| + 1
    ensures !op.IsArrival() ==> |Apply(h, op, maxMessages).items| <= |h.items|
  {
    match op
    case Add(id) => CutShape(Push(h, id), TrimCount(|h.items| + 1, maxMessages));
    case Append(_) =>
    case Pin =>
    case Shrink(k) => CutShape(h, if k <= MaxCut(h) then k else MaxCut(h));
  }

  lemma {:induction false} QuietRunsDoNotGrow(h: History<nat>, ops: seq<Op>, maxMessages: nat)
    requires h.Valid() && forall j :: 0 <= j < |ops| ==> !ops[j].IsArrival()
    ensures |Run(h, ops, maxMessages).items| <= |h.items|
    decreases |ops|
  {
    if ops != [] {
      StepKeepsCap(h, ops[0], maxMessages);
      QuietRunsDoNotGrow(Apply(h, ops[0], maxMessages), ops[1..], maxMessages);
    }
  }

  /** After any run whose last arrival came through an add, the cap is met. */
  lemma {:induction false} CapHoldsAfterAdd(h: History<nat>, ops: seq<Op>, i: nat, maxMessages: nat)
    requires h.Valid() && i < |ops| && ops[i].Add?
    requires forall j :: i < j < |ops| ==> !ops[j].IsArrival()
    ensures |Run(h, ops, maxMessages).items| <= if maxMessages == 0 then 1 else maxMessages
    decreases |ops|
  {
    var next := Apply(h, ops[0], maxMessages);
    StepKeepsCap(h, ops[0], maxMessages);
    if i == 0 {
      QuietRunsDoNotGrow(next, ops[1..], maxMessages);
    } else {
      CapHoldsAfterAdd(next, ops[1..], i - 1, maxMessages);
    }
  }
}
