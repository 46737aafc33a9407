/**
  Splitting a blob of rendered messages into summarizer-sized pieces.

  ChunkAtMessageBoundaries follows chunk_at_message_boundaries; the rest says
  what a lawful split is and proves the greedy one the shortest.
 */
module Chunking {

  /** Message ends as extraction records them: ascending offsets into the content. */
  predicate Boundaries(content: string, ends: seq<nat>) {
    && (forall i, j :: 0 <= i <= j < |ends| ==> ends[i] <= ends[j])
    && (forall i :: 0 <= i < |ends| ==> ends[i] <= |content|)
  }

  function LastEnd(ends: seq<nat>): nat {
    if ends == [] then 0 else ends[|ends| - 1]
  }

  /** A piece is allowed when it fits the budget or holds one message and no boundary inside. */
  predicate PieceOk(ends: seq<nat>, budget: nat, from: nat, to: nat) {
    from < to && (to - from <= budget || forall e :: e in ends ==> e <= from || to <= e)
  }

  function PieceStart(cuts: seq<nat>, i: nat): nat
    requires i <= |cuts|
  {
    if i == 0 then 0 else cuts[i - 1]
  }

  /** The i-th cut falls on a message end and closes an allowed piece. */
  predicate LawfulCut(ends: seq<nat>, budget: nat, cuts: seq<nat>, i: nat)
    requires i < |cuts|
  {
    cuts[i] in ends && PieceOk(ends, budget, PieceStart(cuts, i), cuts[i])
  }

  /** Cut points, all of them message ends, that break 0..LastEnd(ends) into allowed pieces. */
  predicate ValidSplit(ends: seq<nat>, budget: nat, cuts: seq<nat>) {
    && (forall i :: 0 <= i < |cuts| ==> LawfulCut(ends, budget, cuts, i))
    && PieceStart(cuts, |cuts|) == LastEnd(ends)
  }

  /** ... and no later boundary would close an allowed piece from the same start. */
  predicate GreedyCut(ends: seq<nat>, budget: nat, cuts: seq<nat>, i: nat)
    requires i < |cuts|
  {
    && LawfulCut(ends, budget, cuts, i)
    && Furthest(ends, budget, PieceStart(cuts, i), cuts[i])
  }

  predicate Furthest(ends: seq<nat>, budget: nat, from: nat, to: nat) {
    forall e :: e in ends && to < e ==> !PieceOk(ends, budget, from, e)
  }

  predicate GreedySplit(ends: seq<nat>, budget: nat, cuts: seq<nat>) {
    && (forall i :: 0 <= i < |cuts| ==> GreedyCut(ends, budget, cuts, i))
    && PieceStart(cuts, |cuts|) == LastEnd(ends)
  }

  lemma {:induction false} SplitAscends(ends: seq<nat>, budget: nat, cuts: seq<nat>, i: nat, j: nat)
    requires ValidSplit(ends, budget, cuts)
    requires i <= j <= |cuts|
    ensures PieceStart(cuts, i) <= PieceStart(cuts, j)
    ensures i < j ==> PieceStart(cuts, i) < PieceStart(cuts, j)
    decreases j
  {
    if i < j {
      SplitAscends(ends, budget, cuts, i, j - 1);
      assert LawfulCut(ends, budget, cuts, j - 1);
    }
  }

  /** After the same number of pieces the greedy split is never behind. */
  lemma {:induction false} GreedyStaysAhead(ends: seq<nat>, budget: nat, greedy: seq<nat>, other: seq<nat>, n: nat)
    requires GreedySplit(ends, budget, greedy) && ValidSplit(ends, budget, other)
    requires n <= |greedy| && n <= |other|
    ensures PieceStart(other, n) <= PieceStart(greedy, n)
  {
    if n > 0 {
      GreedyStaysAhead(ends, budget, greedy, other, n - 1);
      var g, o := PieceStart(greedy, n - 1), PieceStart(other, n - 1);
      var g', o' := greedy[n - 1], other[n - 1];
      assert GreedyCut(ends, budget, greedy, n - 1) && LawfulCut(ends, budget, other, n - 1);
      if n > 1 {
        assert GreedyCut(ends, budget, greedy, n - 2);
      }
      // If the other piece reached further although it starts no later, it would
      // have been allowed from the greedy start too, and g' was not furthest.
      assert g' < o' ==> PieceOk(ends, budget, g, o');
    }
  }

  lemma GreedyIsValid(ends: seq<nat>, budget: nat, cuts: seq<nat>)
    requires GreedySplit(ends, budget, cuts)
    ensures ValidSplit(ends, budget, cuts)
  {
    forall i | 0 <= i < |cuts| ensures LawfulCut(ends, budget, cuts, i) {
      assert GreedyCut(ends, budget, cuts, i);
    }
  }

  /** Every lawful split has at least n pieces. */
  ghost predicate NoSplitIsShorter(ends: seq<nat>, budget: nat, n: nat) {
    forall cuts :: ValidSplit(ends, budget, cuts) ==> n <= |cuts|
  }

  /** Greedy packing is optimal: no lawful split has fewer pieces. */
  lemma GreedyIsOptimal(ends: seq<nat>, budget: nat, greedy: seq<nat>, other: seq<nat>)
    requires GreedySplit(ends, budget, greedy) && ValidSplit(ends, budget, other)
    ensures |greedy| <= |other|
  {
    if |other| < |greedy| {
      GreedyIsValid(ends, budget, greedy);
      GreedyStaysAhead(ends, budget, greedy, other, |other|);
      SplitAscends(ends, budget, greedy, |other|, |greedy|);
    }
  }

  function CutsOf(chunks: seq<(string, nat)>): (cuts: seq<nat>)
    ensures |cuts| == |chunks|
  {
    seq(|chunks|, i requires 0 <= i < |chunks| => chunks[i].1)
  }

  function Concat(chunks: seq<(string, nat)>): string {
    if chunks == [] then "" else Concat(chunks[..|chunks| - 1]) + chunks[|chunks| - 1].0
  }

  /** Every chunk is the text between its two cut points. */
  predicate TextsMatch(content: string, chunks: seq<(string, nat)>) {
    forall i :: 0 <= i < |chunks| ==> TextMatches(content, chunks, i)
  }

  predicate TextMatches(content: string, chunks: seq<(string, nat)>, i: nat)
    requires i < |chunks|
  {
    var from := ChunkStart(chunks, i);
    from <= chunks[i].1 <= |content| && chunks[i].0 == content[from..chunks[i].1]
  }

  function ChunkStart(chunks: seq<(string, nat)>, i: nat): nat
    requires i <= |chunks|
  {
    if i == 0 then 0 else chunks[i - 1].1
  }

  /** The chunks put back together are exactly the content up to the last message end. */
  lemma {:induction false} ChunksRebuild(content: string, chunks: seq<(string, nat)>)
    requires TextsMatch(content, chunks)
    ensures ChunkStart(chunks, |chunks|) <= |content|
    ensures Concat(chunks) == content[..ChunkStart(chunks, |chunks|)]
  {
    if chunks != [] {
      var n := |chunks| - 1;
      var front := chunks[..n];
      assert TextMatches(content, chunks, n);
      forall i | 0 <= i < n ensures TextMatches(content, front, i) {
        assert TextMatches(content, chunks, i);
      }
      ChunksRebuild(content, front);
      var a, b := ChunkStart(chunks, n), chunks[n].1;
      assert content[..a] + content[a..b] == content[..b];
    }
  }

  /** Cut `content` only at message ends, each piece as long as the budget allows. */
  method ChunkAtMessageBoundaries(content: string, coveredEnds: seq<nat>, budgetChars: nat)
    returns (chunks: seq<(string, nat)>)
    requires Boundaries(content, coveredEnds)
    ensures TextsMatch(content, chunks)
    ensures Concat(chunks) == content[..LastEnd(coveredEnds)]
    ensures GreedySplit(coveredEnds, Max1(budgetChars), CutsOf(chunks))
    ensures ValidSplit(coveredEnds, Max1(budgetChars), CutsOf(chunks))
    ensures NoSplitIsShorter(coveredEnds, Max1(budgetChars), |chunks|)
    ensures budgetChars > 0 ==>
              && ValidSplit(coveredEnds, budgetChars, CutsOf(chunks))
              && NoSplitIsShorter(coveredEnds, budgetChars, |chunks|)
    ensures budgetChars == 0 ==> ValidSplit(coveredEnds, 1, CutsOf(chunks))
  {
    var budget := Max1(budgetChars);
    chunks := [];
    var start, lastEnd := 0, 0;
    for k := 0 to |coveredEnds|
      invariant lastEnd == LastEnd(coveredEnds[..k])
      invariant start == ChunkStart(chunks, |chunks|)
      invariant start <= lastEnd <= start + budget
      invariant lastEnd <= |content|
      invariant TextsMatch(content, chunks)
      invariant forall i :: 0 <= i < |chunks| ==> GreedyCut(coveredEnds, budget, CutsOf(chunks), i)
    {
      var end := coveredEnds[k];
      assert coveredEnds[..k + 1][..k] == coveredEnds[..k];
      if end <= start {
        continue;
      }
      if end - start > budget {
        if lastEnd > start {
          chunks := Append(content, coveredEnds, budget, chunks, lastEnd);
          start := lastEnd;
        }
        if end - start > budget {
          chunks := Append(content, coveredEnds, budget, chunks, end);
          start := end;
        }
      }
      lastEnd := end;
    }
    assert coveredEnds[..|coveredEnds|] == coveredEnds;
    if lastEnd > start {
      chunks := Append(content, coveredEnds, budget, chunks, lastEnd);
    }
    ChunksAreOptimal(content, coveredEnds, budget, chunks);
  }

  lemma ChunksAreOptimal(content: string, ends: seq<nat>, budget: nat, chunks: seq<(string, nat)>)
    requires TextsMatch(content, chunks)
    requires forall i :: 0 <= i < |chunks| ==> GreedyCut(ends, budget, CutsOf(chunks), i)
    requires ChunkStart(chunks, |chunks|) == LastEnd(ends)
    ensures LastEnd(ends) <= |content| && Concat(chunks) == content[..LastEnd(ends)]
    ensures GreedySplit(ends, budget, CutsOf(chunks)) && ValidSplit(ends, budget, CutsOf(chunks))
    ensures NoSplitIsShorter(ends, budget, |chunks|)
  {
    ChunksRebuild(content, chunks);
    GreedyIsValid(ends, budget, CutsOf(chunks));
    forall other | ValidSplit(ends, budget, other) ensures |chunks| <= |other| {
      GreedyIsOptimal(ends, budget, CutsOf(chunks), other);
    }
  }

  function Max1(n: nat): nat {
    if n == 0 then 1 else n
  }

  /** Push the piece that runs from the last cut to `to`. */
  function Append(content: string, ghost ends: seq<nat>, ghost budget: nat, chunks: seq<(string, nat)>, to: nat)
    : (r: seq<(string, nat)>)
    requires TextsMatch(content, chunks)
    requires forall i :: 0 <= i < |chunks| ==> GreedyCut(ends, budget, CutsOf(chunks), i)
    requires ChunkStart(chunks, |chunks|) < to <= |content|
    requires to in ends
    requires PieceOk(ends, budget, ChunkStart(chunks, |chunks|), to)
    requires Furthest(ends, budget, ChunkStart(chunks, |chunks|), to)
    ensures TextsMatch(content, r)
    ensures |r| == |chunks| + 1 && ChunkStart(r, |r|) == to
    ensures forall i :: 0 <= i < |r| ==> GreedyCut(ends, budget, CutsOf(r), i)
  {
    var r := chunks + [(content[ChunkStart(chunks, |chunks|)..to], to)];
    assert TextsMatch(content, r) by {
      forall i | 0 <= i < |r| ensures TextMatches(content, r, i) {
        if i < |chunks| {
          assert TextMatches(content, chunks, i);
        }
      }
    }
    assert forall i :: 0 <= i < |r| ==> GreedyCut(ends, budget, CutsOf(r), i) by {
      assert CutsOf(r) == CutsOf(chunks) + [to];
      forall i | 0 <= i < |r| ensures GreedyCut(ends, budget, CutsOf(r), i) {
        if i < |chunks| {
          assert GreedyCut(ends, budget, CutsOf(chunks), i);
        }
      }
    }
    r
  }
}
