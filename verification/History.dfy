/**
  The message list of an agent context with its pinned live request, and what
  "cutting" it means.

  The source shortens the list on six different paths, each with its own index
  arithmetic.  Here one operation, Cut(h, k), says what every one of them is
  supposed to do: remove the k oldest entries that are not pinned, and keep the
  pin on the entry it was set on.  AgentContext.dfy proves each path equal to a
  Cut; this file proves what a Cut keeps, and what whole runs keep.
 */
module History {
  import opened Wrappers

  datatype History<T> = History(items: seq<T>, pin: Option<nat>) {

    /** An explicit pin is in range.  pin_live_request and every removal keep it so. */
    predicate Valid() {
      pin.Some? ==> pin.value < |items|
    }

    /** The index of the live request: clamped into range, 0 when nothing was pinned. */
    function PinnedIndex(): nat {
      if items == [] then 0
      else if pin.GetOr(0) < |items| then pin.GetOr(0) else |items| - 1
    }

    function Pinned(): T
      requires items != []
    {
      items[PinnedIndex()]
    }
  }

  /** Remove one entry; an explicit pin behind it moves down by one. */
  function RemoveAt<T>(h: History<T>, index: nat): History<T> {
    if index >= |h.items| then h
    else
      History(h.items[..index] + h.items[index + 1..],
              if h.pin.Some? && index < h.pin.value then Some(h.pin.value - 1) else h.pin)
  }

  /** May entry i go while the last keepTail entries and the pinned one stay? */
  predicate IsRemovable<T>(h: History<T>, keepTail: nat, i: nat) {
    i + keepTail < |h.items| && i != h.PinnedIndex()
  }

  /** The first removable index. */
  function OldestRemovable<T>(h: History<T>, keepTail: nat): (r: Option<nat>)
    ensures r.Some? ==> IsRemovable(h, keepTail, r.value)
    ensures forall i: nat :: IsRemovable(h, keepTail, i) ==> r.Some? && r.value <= i
  {
    var pinned := h.PinnedIndex();
    if pinned != 0 && keepTail < |h.items| then Some(0)
    else if pinned == 0 && 1 + keepTail < |h.items| then Some(1)
    else None
  }

  lemma SomethingIsRemovable<T>(h: History<T>, keepTail: nat)
    requires |h.items| > keepTail + 1
    ensures OldestRemovable(h, keepTail).Some?
  {
  }

  /** Where the j-th removable entry sits when `pinned` is skipped. */
  function VictimIndex(pinned: nat, j: nat): nat {
    if j < pinned then j else j + 1
  }

  /** The indices below cutoff other than `pinned`, at most `limit` of them, oldest first. */
  function Victims(pinned: nat, cutoff: nat, limit: nat): (v: seq<nat>)
    ensures |v| == VictimCount(pinned, cutoff, limit)
    ensures forall j :: 0 <= j < |v| ==> v[j] == VictimIndex(pinned, j) && v[j] < cutoff && v[j] != pinned
    ensures forall i: nat :: i < cutoff && i != pinned && i !in v ==> |v| == limit && forall j :: 0 <= j < |v| ==> v[j] < i
  {
    var n := VictimCount(pinned, cutoff, limit);
    var v := seq(n, j requires 0 <= j < n => VictimIndex(pinned, j));
    assert forall i: nat | i < cutoff && i != pinned && i !in v :: n <= VictimNumber(pinned, i) by {
      assert forall i: nat | i != pinned && VictimNumber(pinned, i) < n :: v[VictimNumber(pinned, i)] == i;
    }
    v
  }

  /** The inverse of VictimIndex: how many removable entries are older than entry i. */
  function VictimNumber(pinned: nat, i: nat): nat
    requires i != pinned
  {
    if i < pinned then i else i - 1
  }

  function VictimCount(pinned: nat, cutoff: nat, limit: nat): nat {
    var available := if pinned < cutoff then cutoff - 1 else cutoff;
    if limit < available then limit else available
  }

  /** Which entry is the i-th survivor when the removable entries number j to k - 1 go. */
  function Survivor(pinned: nat, j: nat, k: nat, i: nat): nat
    requires j <= k
  {
    if k <= pinned then (if i < j then i else i + (k - j))
    else if j <= pinned then (if i < j then i else if i == j then pinned else i + (k - j))
    else (if i <= j then i else i + (k - j))
  }

  /** Remove the removable entries number j to k - 1, counting from the oldest. */
  function CutRange<T>(h: History<T>, j: nat, k: nat): History<T>
    requires j <= k
    requires k < |h.items| || j == k
  {
    if j == k then h
    else
      var p := h.PinnedIndex();
      History(seq(|h.items| - (k - j), i requires 0 <= i < |h.items| - (k - j) => h.items[Survivor(p, j, k, i)]),
              if h.pin.None? then None else Some(if k <= p then p - (k - j) else if j <= p then j else p))
  }

  /** Remove the k oldest entries that are not pinned. */
  function Cut<T>(h: History<T>, k: nat): History<T>
    requires k < |h.items| || k == 0
  {
    CutRange(h, 0, k)
  }

  /** Everything an empty-handed cut could at most take: all but the pinned entry. */
  function MaxCut<T>(h: History<T>): nat {
    if |h.items| == 0 then 0 else |h.items| - 1
  }

  // ---------------------------------------------------------------------
  // The removal loops of the source compute cuts
  // ---------------------------------------------------------------------

  lemma RemoveAtItems<T>(h: History<T>, v: nat, i: nat)
    requires v < |h.items| && i < |h.items| - 1
    ensures |RemoveAt(h, v).items| == |h.items| - 1
    ensures RemoveAt(h, v).items[i] == h.items[if i < v then i else i + 1]
  {
  }

  /** Removing victims from the newest down to the oldest, one step. */
  lemma RemoveFromTheBack<T>(h: History<T>, j: nat, k: nat)
    requires h.Valid()
    requires j < k < |h.items|
    ensures VictimIndex(h.PinnedIndex(), j) < |CutRange(h, j + 1, k).items|
    ensures RemoveAt(CutRange(h, j + 1, k), VictimIndex(h.PinnedIndex(), j)) == CutRange(h, j, k)
  {
    var v := VictimIndex(h.PinnedIndex(), j);
    var before := CutRange(h, j + 1, k);
    var after := RemoveAt(before, v).items;
    var goal := CutRange(h, j, k).items;
    assert |after| == |goal|;
    forall i | 0 <= i < |goal| ensures after[i] == goal[i] {
      RemoveAtItems(before, v, i);
    }
    assert after == goal;
  }

  lemma CutShape<T>(h: History<T>, k: nat)
    requires h.Valid()
    requires k < |h.items| || k == 0
    ensures Cut(h, k).Valid()
    ensures |Cut(h, k).items| == |h.items| - k
    ensures Cut(h, k).PinnedIndex() == if k <= h.PinnedIndex() then h.PinnedIndex() - k else 0
    ensures Cut(h, k).pin == if h.pin.None? then None else Some(Cut(h, k).PinnedIndex())
    ensures forall i :: 0 <= i < |h.items| - k ==> Cut(h, k).items[i] == h.items[Survivor(h.PinnedIndex(), 0, k, i)]
  {
  }

  /** Removing the oldest removable entry once more is one more step of a cut. */
  lemma RemoveFromTheFront<T>(h: History<T>, k: nat, keepTail: nat)
    requires h.Valid()
    requires k + 1 < |h.items|
    requires OldestRemovable(Cut(h, k), keepTail).Some?
    ensures RemoveAt(Cut(h, k), OldestRemovable(Cut(h, k), keepTail).value) == Cut(h, k + 1)
  {
  }

  /** One turn of a removal loop: there is a victim, it is not the pinned entry, and taking it deepens the cut. */
  lemma FrontStep<T>(h: History<T>, k: nat, keepTail: nat)
    requires h.Valid() && k < |h.items|
    requires |Cut(h, k).items| > keepTail + 1
    ensures k + 1 <= MaxCut(h) && |Cut(h, k + 1).items| == |Cut(h, k).items| - 1
    ensures OldestRemovable(Cut(h, k), keepTail).Some?
    ensures OldestRemovable(Cut(h, k), keepTail).value != Cut(h, k).PinnedIndex()
    ensures RemoveAt(Cut(h, k), OldestRemovable(Cut(h, k), keepTail).value) == Cut(h, k + 1)
  {
    CutShape(h, k);
    CutShape(h, k + 1);
    SomethingIsRemovable(Cut(h, k), keepTail);
    RemoveFromTheFront(h, k, keepTail);
  }

  /** Two cuts in a row are one cut. */
  lemma CutCompose<T>(h: History<T>, j: nat, k: nat)
    requires h.Valid()
    requires j + k < |h.items| || (j == 0 && k == 0)
    ensures Cut(h, j).Valid()
    ensures k < |Cut(h, j).items| || k == 0
    ensures Cut(Cut(h, j), k) == Cut(h, j + k)
  {
  }

  /** Two cuts in a row, by the sizes alone. */
  lemma CutsAddUp<T>(h: History<T>, j: nat, k: nat)
    requires h.Valid() && j <= MaxCut(h) && k <= MaxCut(Cut(h, j))
    ensures j + k <= MaxCut(h)
    ensures |Cut(h, j).items| == |h.items| - j && |Cut(h, j + k).items| == |h.items| - j - k
    ensures Cut(Cut(h, j), k) == Cut(h, j + k)
  {
  }

  // ---------------------------------------------------------------------
  // What a cut keeps
  // ---------------------------------------------------------------------

  /** The k oldest entries that are not pinned: what a cut takes. */
  function Oldest<T>(h: History<T>, k: nat): (r: seq<T>)
    requires k < |h.items| || k == 0
    ensures |r| == k
  {
    seq(k, j requires 0 <= j < k => h.items[VictimIndex(h.PinnedIndex(), j)])
  }

  /** What two cuts in a row take is what the one cut takes, in the same order. */
  lemma OldestAddUp<T>(h: History<T>, j: nat, k: nat)
    requires h.Valid() && j <= MaxCut(h) && k <= MaxCut(Cut(h, j))
    ensures j + k <= MaxCut(h)
    ensures Oldest(h, j + k) == Oldest(h, j) + Oldest(Cut(h, j), k)
  {
    CutShape(h, j);
    var c := Cut(h, j);
    forall i | 0 <= i < k ensures Oldest(c, k)[i] == Oldest(h, j + k)[j + i] {
      assert c.items[VictimIndex(c.PinnedIndex(), i)] == h.items[VictimIndex(h.PinnedIndex(), j + i)];
    }
  }

  lemma OneMoreTaken<T>(h: History<T>, k: nat)
    requires h.Valid() && k < MaxCut(h)
    ensures multiset(Cut(h, k).items) == multiset(Cut(h, k + 1).items) + multiset{h.items[VictimIndex(h.PinnedIndex(), k)]}
  {
    CutShape(h, k);
    var c := Cut(h, k);
    SomethingIsRemovable(c, 0);
    RemoveFromTheFront(h, k, 0);
    var v := OldestRemovable(c, 0).value;
    TakeOut(c.items, v);
    assert c.items[v] == h.items[VictimIndex(h.PinnedIndex(), k)];
  }

  /** Nothing is lost and nothing is copied: what is kept and what is taken make up the whole. */
  lemma {:induction false} CutConserves<T>(h: History<T>, k: nat)
    requires h.Valid() && k <= MaxCut(h)
    ensures multiset(h.items) == multiset(Cut(h, k).items) + multiset(Oldest(h, k))
  {
    if k > 0 {
      var x := h.items[VictimIndex(h.PinnedIndex(), k - 1)];
      var before, after, taken := Cut(h, k - 1).items, Cut(h, k).items, Oldest(h, k - 1);
      assert multiset(h.items) == multiset(before) + multiset(taken) by {
        CutConserves(h, k - 1);
      }
      assert multiset(before) == multiset(after) + multiset{x} by {
        OneMoreTaken(h, k - 1);
      }
      assert multiset(Oldest(h, k)) == multiset(taken) + multiset{x} by {
        OldestOneMore(h, k - 1);
        BagOneMore(taken, x);
      }
      MoveOne(multiset(h.items), multiset(before), multiset(after), multiset(taken), x);
    }
  }

  lemma OldestOneMore<T>(h: History<T>, k: nat)
    requires k + 1 < |h.items|
    ensures Oldest(h, k + 1) == Oldest(h, k) + [h.items[VictimIndex(h.PinnedIndex(), k)]]
  {
  }

  lemma BagOneMore<T>(s: seq<T>, x: T)
    ensures multiset(s + [x]) == multiset(s) + multiset{x}
  {
  }

  /** One element moves from what is kept to what is taken. */
  lemma MoveOne<T>(whole: multiset<T>, before: multiset<T>, after: multiset<T>, taken: multiset<T>, x: T)
    requires whole == before + taken && before == after + multiset{x}
    ensures whole == after + (taken + multiset{x})
  {
  }

  lemma TakeOut<T>(s: seq<T>, v: nat)
    requires v < |s|
    ensures multiset(s) == multiset(s[..v] + s[v + 1..]) + multiset{s[v]}
  {
    assert s == s[..v] + [s[v]] + s[v + 1..];
  }

  predicate Increasing(ids: seq<nat>) {
    forall i, j :: 0 <= i < j < |ids| ==> ids[i] < ids[j]
  }

  /**
    What a cut means, stated without its index arithmetic.  When entries are
    numbered in order of arrival, Cut(h, k) is the one shorter history that keeps
    the pinned entry, keeps arrival order, and loses exactly k entries, every one
    of them older than every unpinned entry it keeps.
   */
  lemma CutKeepsPinAndOrder(h: History<nat>, k: nat)
    requires h.Valid() && Increasing(h.items)
    requires k < |h.items|
    ensures Cut(h, k).Valid()
    ensures |Cut(h, k).items| == |h.items| - k
    ensures Cut(h, k).Pinned() == h.Pinned()
    ensures Increasing(Cut(h, k).items)
    ensures forall x :: x in Cut(h, k).items ==> x in h.items
    ensures forall x, y :: x in h.items && x !in Cut(h, k).items && y in Cut(h, k).items && y != h.Pinned() ==> x < y
  {
    CutShape(h, k);
    var p := h.PinnedIndex();
    var c := Cut(h, k).items;
    forall i, j | 0 <= i < j < |c| ensures c[i] < c[j] {
      assert c[i] == h.items[Survivor(p, 0, k, i)] && c[j] == h.items[Survivor(p, 0, k, j)];
    }
    CutLoses(h, k);
  }

  /** The lost entries are the ones at the victim indices. */
  lemma CutLoses(h: History<nat>, k: nat)
    requires h.Valid() && Increasing(h.items)
    requires k < |h.items|
    ensures forall i :: 0 <= i < |h.items| && h.items[i] !in Cut(h, k).items ==> i < VictimIndex(h.PinnedIndex(), k)
    ensures forall i :: 0 <= i < |Cut(h, k).items| && Cut(h, k).items[i] != h.Pinned() ==>
        exists j :: VictimIndex(h.PinnedIndex(), k) <= j < |h.items| && h.items[j] == Cut(h, k).items[i]
  {
    CutShape(h, k);
    var p := h.PinnedIndex();
    var c := Cut(h, k).items;
    var v := VictimIndex(p, k);
    forall i | v <= i < |h.items| ensures h.items[i] in c {
      assert c[i - k] == h.items[i];
    }
    forall i | 0 <= i < |c| && c[i] != h.Pinned()
      ensures exists j :: v <= j < |h.items| && h.items[j] == c[i]
    {
      assert h.items[i + k] == c[i];
    }
  }

  /** ... and it is the only one. */
  lemma {:induction false} CutIsUnique(h: History<nat>, k: nat, kept: seq<nat>)
    requires h.Valid() && Increasing(h.items)
    requires k < |h.items|
    requires |kept| == |h.items| - k && Increasing(kept)
    requires forall x :: x in kept ==> x in h.items
    requires h.Pinned() in kept
    requires forall x, y :: x in h.items && x !in kept && y in kept && y != h.Pinned() ==> x < y
    ensures kept == Cut(h, k).items
  {
    var p := h.PinnedIndex();
    var c := Cut(h, k).items;
    CutKeepsPinAndOrder(h, k);
    if x :| x in kept && x !in c {
      // Equal sizes, so each would hold an unpinned entry the other lost, and
      // each of the two would be the older one.
      var y := MissingFrom(kept, c, x);
      assert false;
    }
    SortedSetsEqual(kept, c);
  }

  function Elements(s: seq<nat>): set<nat> {
    set x | x in s
  }

  lemma {:induction false} ElementsOf(s: seq<nat>)
    requires Increasing(s)
    ensures |Elements(s)| == |s|
  {
    if s != [] {
      var n := |s| - 1;
      var front := s[..n];
      ElementsOf(front);
      assert s == front + [s[n]];
      assert Elements(s) == Elements(front) + {s[n]};
      assert s[n] !in Elements(front);
    }
  }

  lemma MissingFrom(a: seq<nat>, b: seq<nat>, extra: nat) returns (y: nat)
    requires Increasing(a) && Increasing(b) && |a| == |b|
    requires extra in a && extra !in b
    ensures y in b && y !in a
  {
    ElementsOf(a);
    ElementsOf(b);
    if Elements(b) <= Elements(a) {
      assert extra in Elements(a);
      SubsetSize(Elements(b), Elements(a) - {extra});
      assert false;
    }
    y :| y in Elements(b) && y !in Elements(a);
  }

  lemma {:induction false} SubsetSize<T>(a: set<T>, b: set<T>)
    requires a <= b
    ensures |a| <= |b|
    decreases |a|
  {
    if a != {} {
      var x :| x in a;
      SubsetSize(a - {x}, b - {x});
    }
  }

  lemma BelowAnother(s: seq<nat>, x: nat, y: nat)
    requires Increasing(s) && x in s && y in s && x < y
    ensures x in s[..|s| - 1]
  {
  }

  lemma {:induction false} SortedSetsEqual(a: seq<nat>, b: seq<nat>)
    requires Increasing(a) && Increasing(b) && |a| == |b|
    requires forall x :: x in a ==> x in b
    ensures a == b
  {
    if a != [] {
      var n := |a| - 1;
      // Everything in a's front is below a's last entry, hence not b's last.
      forall x | x in a[..n] ensures x in b[..n] {
        BelowAnother(b, x, a[n]);
      }
      SortedSetsEqual(a[..n], b[..n]);
      assert a == a[..n] + [a[n]] && b == b[..n] + [b[n]];
      assert a[n] in b && a[n] !in a[..n];
    }
  }
}
