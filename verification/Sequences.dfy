/** Parts of sequences: what stays in order, and texts that stand in a text one after the other. */
module Sequences {

  /** part is whole with some elements left out. */
  predicate IsSubsequence<T(==)>(part: seq<T>, whole: seq<T>)
    decreases |whole|
  {
    || part == []
    || (whole != [] && part[|part| - 1] == whole[|whole| - 1] && IsSubsequence(part[..|part| - 1], whole[..|whole| - 1]))
    || (whole != [] && IsSubsequence(part, whole[..|whole| - 1]))
  }

  lemma SubsequenceKeeping<T>(part: seq<T>, whole: seq<T>, x: T)
    requires IsSubsequence(part, whole)
    ensures IsSubsequence(part + [x], whole + [x])
  {
    assert (part + [x])[..|part|] == part && (whole + [x])[..|whole|] == whole;
  }

  lemma SubsequenceSkipping<T>(part: seq<T>, whole: seq<T>, x: T)
    requires IsSubsequence(part, whole)
    ensures IsSubsequence(part, whole + [x])
  {
    assert (whole + [x])[..|whole|] == whole;
  }

  lemma {:induction false} SubsequenceOfItself<T>(s: seq<T>)
    ensures IsSubsequence(s, s)
  {
    if s != [] {
      SubsequenceOfItself(s[..|s| - 1]);
    }
  }

  lemma {:induction false} SubsequenceTransitive<T>(a: seq<T>, b: seq<T>, c: seq<T>)
    requires IsSubsequence(a, b) && IsSubsequence(b, c)
    ensures IsSubsequence(a, c)
    decreases |b| + |c|
  {
    if a != [] && b != [] {
      if b[|b| - 1] == c[|c| - 1] && IsSubsequence(b[..|b| - 1], c[..|c| - 1]) {
        if a[|a| - 1] == b[|b| - 1] && IsSubsequence(a[..|a| - 1], b[..|b| - 1]) {
          SubsequenceTransitive(a[..|a| - 1], b[..|b| - 1], c[..|c| - 1]);
        } else {
          SubsequenceTransitive(a, b[..|b| - 1], c[..|c| - 1]);
        }
      } else {
        SubsequenceTransitive(a, b, c[..|c| - 1]);
      }
    }
  }

  /** piece stands in text from i on. */
  predicate StandsAt(text: string, piece: string, i: nat) {
    i + |piece| <= |text| && text[i..i + |piece|] == piece
  }

  predicate Contains(text: string, piece: string) {
    exists i: nat | i <= |text| :: StandsAt(text, piece, i)
  }

  /** The pieces stand in the text one after the other, none overlapping. */
  predicate HoldsInOrder(text: string, pieces: seq<string>)
    decreases |pieces|
  {
    pieces == [] || exists i: nat | i <= |text| :: LastStandsAt(text, pieces, i)
  }

  predicate LastStandsAt(text: string, pieces: seq<string>, i: nat)
    requires pieces != []
    decreases |pieces|, 0
  {
    StandsAt(text, pieces[|pieces| - 1], i) && HoldsInOrder(text[..i], pieces[..|pieces| - 1])
  }

  /** A longer text holds what its beginning holds. */
  lemma HoldsInLonger(text: string, more: string, pieces: seq<string>)
    requires HoldsInOrder(text, pieces)
    ensures HoldsInOrder(text + more, pieces)
  {
    if pieces != [] {
      var i: nat :| i <= |text| && LastStandsAt(text, pieces, i);
      assert (text + more)[..i] == text[..i];
      assert (text + more)[i..i + |pieces[|pieces| - 1]|] == text[i..i + |pieces[|pieces| - 1]|];
      assert LastStandsAt(text + more, pieces, i);
    }
  }

  lemma HoldsOneMore(text: string, pieces: seq<string>, between: string, piece: string)
    requires HoldsInOrder(text, pieces)
    ensures HoldsInOrder(text + between + piece, pieces + [piece])
  {
    var whole, i := text + between + piece, |text + between|;
    HoldsInLonger(text, between, pieces);
    assert whole[..i] == text + between && whole[i..i + |piece|] == piece;
    assert (pieces + [piece])[..|pieces|] == pieces;
    assert LastStandsAt(whole, pieces + [piece], i);
  }

  lemma HoldsItself(text: string)
    ensures HoldsInOrder(text, [text])
  {
    assert text[0..0 + |text|] == text;
    assert LastStandsAt(text, [text], 0);
  }
}
