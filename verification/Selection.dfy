/** Keeping the best-scored sentences in their original order (select_keep_indices). */
module Selection {
  import opened History
  import opened Sequences

  /** A sentence's position and score. */
  datatype Scored = Scored(index: nat, score: nat)

  /** Higher score first, earlier position on a tie. */
  predicate Beats(a: Scored, b: Scored) {
    a.score > b.score || (a.score == b.score && a.index < b.index)
  }

  predicate Ranked(s: seq<Scored>) {
    forall i, j :: 0 <= i < j < |s| ==> Beats(s[i], s[j])
  }

  // The library's sorts, as insertion sorts.

  function InsertRanked(s: seq<Scored>, x: Scored): (r: seq<Scored>)
    requires Ranked(s)
    requires forall y :: y in s ==> y.index != x.index
    ensures |r| == |s| + 1 && Ranked(r)
    ensures forall y :: y in r <==> y in s || y == x
  {
    if s == [] then [x]
    else
      var n := |s| - 1;
      assert s == s[..n] + [s[n]];
      if Beats(s[n], x) then s + [x]
      else
        var r := InsertRanked(s[..n], x);
        assert forall y :: y in r ==> Beats(y, s[n]);
        assert forall i :: 0 <= i < |r| ==> r[i] in r;
        r + [s[n]]
  }

  function InsertAscending(s: seq<nat>, x: nat): (r: seq<nat>)
    requires Increasing(s) && x !in s
    ensures |r| == |s| + 1 && Increasing(r)
    ensures forall y :: y in r <==> y in s || y == x
  {
    if s == [] then [x]
    else
      var n := |s| - 1;
      assert s == s[..n] + [s[n]];
      if s[n] < x then s + [x]
      else
        var r := InsertAscending(s[..n], x);
        assert forall y :: y in r ==> y < s[n];
        assert forall i :: 0 <= i < |r| ==> r[i] in r;
        r + [s[n]]
  }

  /** One row for each of the first n scores. */
  ghost predicate Rows(scores: seq<nat>, n: nat, ranked: seq<Scored>)
    requires n <= |scores|
  {
    forall x :: x in ranked <==> x.index < n && x == Scored(x.index, scores[x.index])
  }

  /** Enumerate the scores and sort the rows by rank. */
  method Rank(scores: seq<nat>) returns (ranked: seq<Scored>)
    ensures Ranked(ranked) && |ranked| == |scores|
    ensures Rows(scores, |scores|, ranked)
  {
    ranked := [];
    for i := 0 to |scores|
      invariant Ranked(ranked) && |ranked| == i
      invariant Rows(scores, i, ranked)
    {
      ranked := InsertRanked(ranked, Scored(i, scores[i]));
    }
  }

  /** Every kept sentence beats every dropped one. */
  predicate KeepsTheBest(scores: seq<nat>, kept: seq<nat>) {
    forall i, j :: 0 <= i < |scores| && 0 <= j < |scores| && i in kept && j !in kept ==>
      Beats(Scored(i, scores[i]), Scored(j, scores[j]))
  }

  /** i is the position of one of the n best rows. */
  ghost predicate AmongFirst(ranked: seq<Scored>, n: nat, i: nat)
    requires n <= |ranked|
  {
    exists m :: 0 <= m < n && ranked[m].index == i
  }

  method SelectKeepIndices(scores: seq<nat>, keepCount: nat) returns (indices: seq<nat>)
    ensures |indices| == if keepCount < |scores| then keepCount else |scores|
    ensures Increasing(indices) && forall i :: i in indices ==> i < |scores|
    ensures KeepsTheBest(scores, indices)
  {
    if scores == [] || keepCount == 0 {
      return [];
    }
    var ranked := Rank(scores);
    var keep := if keepCount < |ranked| then keepCount else |ranked|;
    indices := [];
    for n := 0 to keep
      invariant Increasing(indices) && |indices| == n
      invariant forall i :: i in indices <==> AmongFirst(ranked, n, i)
    {
      FreshRow(scores, ranked, n);
      indices := InsertAscending(indices, ranked[n].index);
    }
    BestRowsKept(scores, ranked, keep, indices);
  }

  /** The n-th row brings a position no better row had, and nothing else new. */
  lemma FreshRow(scores: seq<nat>, ranked: seq<Scored>, n: nat)
    requires Ranked(ranked) && Rows(scores, |scores|, ranked) && n < |ranked|
    ensures !AmongFirst(ranked, n, ranked[n].index)
    ensures forall i :: AmongFirst(ranked, n + 1, i) <==> AmongFirst(ranked, n, i) || i == ranked[n].index
  {
  }

  lemma BestRowsKept(scores: seq<nat>, ranked: seq<Scored>, keep: nat, indices: seq<nat>)
    requires Ranked(ranked) && Rows(scores, |scores|, ranked) && keep <= |ranked|
    requires forall i :: i in indices <==> AmongFirst(ranked, keep, i)
    ensures forall i :: i in indices ==> i < |scores|
    ensures KeepsTheBest(scores, indices)
  {
  }

  /** The selection is determined by what it promises. */
  lemma SelectionIsUnique(scores: seq<nat>, a: seq<nat>, b: seq<nat>)
    requires Increasing(a) && Increasing(b) && |a| == |b|
    requires forall i :: i in a ==> i < |scores|
    requires forall i :: i in b ==> i < |scores|
    requires KeepsTheBest(scores, a) && KeepsTheBest(scores, b)
    ensures a == b
  {
    if i :| i in a && i !in b {
      // The other selection holds something this one lacks; each would beat the other.
      var j := MissingFrom(a, b, i);
      assert false;
    }
    SortedSetsEqual(a, b);
  }

  // ---------------------------------------------------------------------
  // Joining the survivors
  // ---------------------------------------------------------------------

  /** The sentences at these positions, in the order given. */
  function Picked(sentences: seq<string>, indices: seq<nat>): seq<string>
    requires forall i :: i in indices ==> i < |sentences|
  {
    seq(|indices|, k requires 0 <= k < |indices| => assert indices[k] in indices; sentences[indices[k]])
  }

  /** Picking at strictly increasing positions leaves elements out and moves none. */
  lemma {:induction false} PickedIsSubsequence(sentences: seq<string>, indices: seq<nat>)
    requires Increasing(indices) && forall i :: i in indices ==> i < |sentences|
    ensures IsSubsequence(Picked(sentences, indices), sentences)
    decreases |sentences|
  {
    if indices != [] {
      var k, n := |indices| - 1, |sentences| - 1;
      assert indices[k] in indices;
      var front, before := indices[..k], sentences[..n];
      if indices[k] == n {
        forall i | i in front ensures i < n {
          var j :| 0 <= j < k && front[j] == i;
          assert indices[j] < indices[k];
        }
        PickedIsSubsequence(before, front);
        assert Picked(sentences, indices)[..k] == Picked(before, front);
      } else {
        forall i | i in indices ensures i < n {
          var j :| 0 <= j <= k && indices[j] == i;
        }
        PickedIsSubsequence(before, indices);
        assert Picked(sentences, indices) == Picked(before, indices);
      }
    }
  }

  /** str::trim and str::trim_end, whatever counts as white space. */
  datatype Trim = Trim(both: string -> string, end: string -> string)

  /** A sentence that ended its line still does; the others are set off by a blank. */
  function Shaped(trim: Trim, sentence: string): string {
    if sentence != "" && sentence[|sentence| - 1] == '\n' then trim.end(sentence) + "\n" else trim.both(sentence) + " "
  }

  /** The trimmed words, then a newline where there was one and a blank where there was none. */
  lemma ShapedKeepsTheWords(trim: Trim, sentence: string)
    ensures var shaped := Shaped(trim, sentence);
      && shaped != ""
      && (if exists words :: sentence == words + "\n"
          then shaped[|shaped| - 1] == '\n' && shaped[..|shaped| - 1] == trim.end(sentence)
          else shaped[|shaped| - 1] == ' ' && shaped[..|shaped| - 1] == trim.both(sentence))
  {
    if sentence != "" && sentence[|sentence| - 1] == '\n' {
      assert sentence == sentence[..|sentence| - 1] + "\n";
    }
  }

  function ShapedAll(trim: Trim, sentences: seq<string>): string {
    if sentences == [] then "" else ShapedAll(trim, sentences[..|sentences| - 1]) + Shaped(trim, sentences[|sentences| - 1])
  }

  method JoinSurvivors(trim: Trim, sentences: seq<string>, keepIndices: seq<nat>) returns (joined: string)
    requires forall i :: i in keepIndices ==> i < |sentences|
    ensures joined == trim.end(ShapedAll(trim, Picked(sentences, keepIndices)))
  {
    var compressed := "";
    for k := 0 to |keepIndices|
      invariant compressed == ShapedAll(trim, Picked(sentences, keepIndices)[..k])
    {
      assert keepIndices[k] in keepIndices;
      var sentence := sentences[keepIndices[k]];
      assert Picked(sentences, keepIndices)[..k + 1] == Picked(sentences, keepIndices)[..k] + [sentence];
      compressed := compressed + Shaped(trim, sentence);
    }
    assert Picked(sentences, keepIndices)[..|keepIndices|] == Picked(sentences, keepIndices);
    return trim.end(compressed);
  }

  /** Select and join: the best sentences, each in its own shape, in the order they were written. */
  method KeepBest(trim: Trim, sentences: seq<string>, scores: seq<nat>, keepCount: nat)
    returns (joined: string, kept: seq<nat>)
    requires |scores| == |sentences|
    ensures |kept| == if keepCount < |scores| then keepCount else |scores|
    ensures KeepsTheBest(scores, kept) && forall i :: i in kept ==> i < |sentences|
    ensures IsSubsequence(Picked(sentences, kept), sentences)
    ensures |Picked(sentences, kept)| == |kept|
    ensures forall k :: 0 <= k < |kept| ==> kept[k] in kept && Picked(sentences, kept)[k] == sentences[kept[k]]
    ensures joined == trim.end(ShapedAll(trim, Picked(sentences, kept)))
  {
    kept := SelectKeepIndices(scores, keepCount);
    PickedIsSubsequence(sentences, kept);
    joined := JoinSurvivors(trim, sentences, kept);
  }

  /** The joined text holds every kept sentence in its shape, one after the other. */
  lemma {:induction false} ShapedInOrder(trim: Trim, sentences: seq<string>)
    ensures HoldsInOrder(ShapedAll(trim, sentences), ShapedEach(trim, sentences))
  {
    if sentences != [] {
      var front, last := sentences[..|sentences| - 1], sentences[|sentences| - 1];
      ShapedInOrder(trim, front);
      HoldsOneMore(ShapedAll(trim, front), ShapedEach(trim, front), "", Shaped(trim, last));
      ShapedStep(trim, sentences);
    }
  }

  lemma ShapedStep(trim: Trim, sentences: seq<string>)
    requires sentences != []
    ensures var front, last := sentences[..|sentences| - 1], sentences[|sentences| - 1];
      && ShapedAll(trim, sentences) == ShapedAll(trim, front) + "" + Shaped(trim, last)
      && ShapedEach(trim, sentences) == ShapedEach(trim, front) + [Shaped(trim, last)]
  {
  }

  function ShapedEach(trim: Trim, sentences: seq<string>): seq<string> {
    seq(|sentences|, k requires 0 <= k < |sentences| => Shaped(trim, sentences[k]))
  }
}
