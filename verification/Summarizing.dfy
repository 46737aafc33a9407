/** Asking the summarizer candidates in turn to read a blob chunk by chunk. */
module Summarizing {
  import opened Wrappers
  import opened Chunking

  /** What becomes of one candidate: no client, or an input window and its reply to each chunk. */
  datatype Attempt =
    | Unavailable
    | Model(budget: nat, reply: (nat, string) -> Option<string>)

  /** The candidate read every chunk of the content, and these are its summaries in order. */
  ghost predicate ReadsAll(attempt: Attempt, content: string, ends: seq<nat>, parts: seq<string>) {
    attempt.Model? && LastEnd(ends) > 0 &&
    exists chunks :: ChunksOf(content, ends, Max1(attempt.budget), chunks) && RepliesTo(attempt, chunks, parts)
  }

  ghost predicate ChunksOf(content: string, ends: seq<nat>, budget: nat, chunks: seq<(string, nat)>) {
    TextsMatch(content, chunks) && GreedySplit(ends, budget, CutsOf(chunks))
  }

  ghost predicate RepliesTo(attempt: Attempt, chunks: seq<(string, nat)>, parts: seq<string>)
    requires attempt.Model?
  {
    |parts| == |chunks| && forall c :: 0 <= c < |chunks| ==> attempt.reply(c, chunks[c].0) == Some(parts[c])
  }

  /** There is only one greedy chunking. */
  lemma ChunksAreUnique(content: string, ends: seq<nat>, budget: nat, a: seq<(string, nat)>, b: seq<(string, nat)>)
    requires ChunksOf(content, ends, budget, a) && ChunksOf(content, ends, budget, b)
    ensures a == b
  {
    GreedyIsValid(ends, budget, CutsOf(a));
    GreedyIsValid(ends, budget, CutsOf(b));
    GreedyIsOptimal(ends, budget, CutsOf(a), CutsOf(b));
    GreedyIsOptimal(ends, budget, CutsOf(b), CutsOf(a));
    forall i | 0 <= i < |a| ensures a[i] == b[i] {
      assert TextMatches(content, a, i) && TextMatches(content, b, i);
      GreedyStaysAhead(ends, budget, CutsOf(a), CutsOf(b), i);
      GreedyStaysAhead(ends, budget, CutsOf(b), CutsOf(a), i);
      GreedyStaysAhead(ends, budget, CutsOf(a), CutsOf(b), i + 1);
      GreedyStaysAhead(ends, budget, CutsOf(b), CutsOf(a), i + 1);
      assert PieceStart(CutsOf(a), i) == ChunkStart(a, i) && PieceStart(CutsOf(b), i) == ChunkStart(b, i);
    }
  }

  /** One candidate, chunk by chunk; None as soon as a chunk fails. */
  method SummarizeChunks(attempt: Attempt, content: string, coveredEnds: seq<nat>)
    returns (r: Option<(seq<string>, nat)>)
    requires Boundaries(content, coveredEnds)
    ensures r.Some? ==> ReadsAll(attempt, content, coveredEnds, r.value.0) && r.value.1 == LastEnd(coveredEnds)
    ensures r.None? ==> forall parts :: !ReadsAll(attempt, content, coveredEnds, parts)
  {
    if attempt.Unavailable? {
      return None;
    }
    var chunks := ChunkAtMessageBoundaries(content, coveredEnds, attempt.budget);
    if chunks == [] {
      return None;
    }
    assert ChunksOf(content, coveredEnds, Max1(attempt.budget), chunks);
    var parts, consumed := [], 0;
    for i := 0 to |chunks|
      invariant |parts| == i
      invariant forall c :: 0 <= c < i ==> attempt.reply(c, chunks[c].0) == Some(parts[c])
      invariant consumed == ChunkStart(chunks, i)
    {
      var reply := attempt.reply(i, chunks[i].0);
      if reply.None? {
        forall parts' ensures !ReadsAll(attempt, content, coveredEnds, parts') {
          forall other | ChunksOf(content, coveredEnds, Max1(attempt.budget), other)
            ensures !RepliesTo(attempt, other, parts')
          {
            ChunksAreUnique(content, coveredEnds, Max1(attempt.budget), chunks, other);
          }
        }
        return None;
      }
      parts := parts + [reply.value];
      consumed := chunks[i].1;
    }
    assert RepliesTo(attempt, chunks, parts);
    return Some((parts, consumed));
  }

  /** The first candidate that reads everything wins; None when there is none. */
  ghost predicate FirstToReadAll(attempts: seq<Attempt>, content: string, ends: seq<nat>, i: nat, parts: seq<string>) {
    && i < |attempts|
    && ReadsAll(attempts[i], content, ends, parts)
    && forall j, other :: 0 <= j < i ==> !ReadsAll(attempts[j], content, ends, other)
  }

  /** Which candidate wins, and what it says, is determined. */
  lemma ReadingIsUnique(attempts: seq<Attempt>, content: string, ends: seq<nat>, i: nat, parts: seq<string>,
                        i': nat, parts': seq<string>)
    requires FirstToReadAll(attempts, content, ends, i, parts) && FirstToReadAll(attempts, content, ends, i', parts')
    ensures i == i' && parts == parts'
  {
    var budget := Max1(attempts[i].budget);
    var a: seq<(string, nat)> :| ChunksOf(content, ends, budget, a) && RepliesTo(attempts[i], a, parts);
    var b: seq<(string, nat)> :| ChunksOf(content, ends, budget, b) && RepliesTo(attempts[i], b, parts');
    ChunksAreUnique(content, ends, budget, a, b);
    forall c | 0 <= c < |a| ensures parts[c] == parts'[c] {
      assert attempts[i].reply(c, a[c].0) == Some(parts[c]);
    }
  }

  method SummarizeContentWithFallback(splice: seq<string> -> string, content: string, coveredEnds: seq<nat>,
                                      attempts: seq<Attempt>)
    returns (r: Option<(string, nat)>)
    requires Boundaries(content, coveredEnds)
    ensures r.Some? ==> LastEnd(coveredEnds) > 0 && r.value.1 == LastEnd(coveredEnds)
    ensures r.Some? ==> exists i, parts ::
              FirstToReadAll(attempts, content, coveredEnds, i, parts) && r.value.0 == splice(parts)
    ensures r.None? ==> forall j, other :: 0 <= j < |attempts| ==> !ReadsAll(attempts[j], content, coveredEnds, other)
  {
    for i := 0 to |attempts|
      invariant forall j, other :: 0 <= j < i ==> !ReadsAll(attempts[j], content, coveredEnds, other)
    {
      var outcome := SummarizeChunks(attempts[i], content, coveredEnds);
      if outcome.Some? {
        assert FirstToReadAll(attempts, content, coveredEnds, i, outcome.value.0);
        return Some((splice(outcome.value.0), outcome.value.1));
      }
    }
    return None;
  }
}
