/** Framing webhook text so that it cannot close its own fence (untrusted.rs). */
module Fence {
  import opened Utf8
  import opened Sequences

  /** The fence around a payload, what an embedded closing fence becomes, and the words of the header. */
  datatype Fence = Fence(open: string, close: string, escaped: string, beforeLabel: string, afterLabel: string)

  function LowerChar(c: char): char {
    if 'A' <= c <= 'Z' then (c as int + 32) as char else c
  }

  predicate Lacks(s: string, c: char) {
    forall i :: 0 <= i < |s| ==> s[i] != c
  }

  /**
    What the seam argument uses of the fence: `<` opens the closing fence and occurs
    nowhere else in it, the escaped form differs from it right after its own `<`, and
    the text around a payload holds no other `<` and separates it by characters the
    fence does not contain.
   */
  predicate FenceOk(f: Fence) {
    CloseOk(f) && EscapedOk(f) && HeaderOk(f)
  }

  predicate CloseOk(f: Fence) {
    && |f.close| >= 2 && f.close[0] == '<' && Lacks(f.close[1..], '<') && Lacks(f.close, '`') && Lacks(f.close, '\n')
    && IsLowerAscii(f.close)
  }

  predicate EscapedOk(f: Fence)
    requires CloseOk(f)
  {
    && |f.escaped| == |f.close| + 1 && f.escaped[0] == '<' && Lacks(f.escaped[1..], '<')
    && LowerChar(f.escaped[1]) != f.close[1]
  }

  predicate HeaderOk(f: Fence) {
    |f.open| < |f.close| && Lacks(f.beforeLabel, '<') && Lacks(f.afterLabel, '<')
  }

  /** The closing fence, in any letter case, stands at offset i. */
  predicate MatchAt(f: Fence, text: string, i: nat) {
    i + |f.close| <= |text| && forall k :: 0 <= k < |f.close| ==> LowerChar(text[i + k]) == f.close[k]
  }

  /** The same letter, large or small, or the same character. */
  predicate SameLetter(a: char, b: char) {
    a == b || IsLargeOf(a, b) || IsLargeOf(b, a)
  }

  /** In ASCII a large letter stands 32 places before its small one. */
  predicate IsLargeOf(large: char, small: char) {
    'a' <= small <= 'z' && large as int + 32 == small as int
  }

  /** The alphabet, letter by letter: the pairs are the same letter, and lowering turns one into the other. */
  lemma LowerIsSmall(k: nat)
    requires k < 26
    ensures var small, large := "abcdefghijklmnopqrstuvwxyz"[k], "ABCDEFGHIJKLMNOPQRSTUVWXYZ"[k];
      && IsLargeOf(large, small) && SameLetter(small, large)
      && LowerChar(large) == small == LowerChar(small)
  {
  }

  /** Nothing but a large letter is changed by lowering. */
  lemma LowerLeavesTheRest(c: char)
    ensures LowerChar(c) != c <==> exists small :: IsLargeOf(c, small)
  {
    if 'A' <= c <= 'Z' {
      assert IsLargeOf(c, LowerChar(c));
    }
  }

  lemma LowerFindsTheLetter(c: char, small: char)
    requires LowerChar(small) == small
    ensures LowerChar(c) == small <==> SameLetter(c, small)
  {
  }

  /** A closing fence written in any letter case stands at offset i. */
  predicate FenceAt(f: Fence, text: string, i: nat) {
    i + |f.close| <= |text| && forall k :: 0 <= k < |f.close| ==> SameLetter(text[i + k], f.close[k])
  }

  ghost predicate NoFenceInAnyCase(f: Fence, text: string) {
    forall i: nat :: !FenceAt(f, text, i)
  }

  predicate AllAreFences(f: Fence, text: string, matches: seq<nat>) {
    forall k :: 0 <= k < |matches| ==> FenceAt(f, text, matches[k])
  }

  /** One closing fence in any letter case, and it closes the text. */
  ghost predicate ClosesOnceInAnyCase(f: Fence, text: string) {
    forall j: nat :: FenceAt(f, text, j) <==> j + |f.close| == |text|
  }

  lemma MatchIsFence(f: Fence, text: string, i: nat)
    requires CloseOk(f)
    ensures MatchAt(f, text, i) <==> FenceAt(f, text, i)
  {
    if i + |f.close| <= |text| {
      forall k | 0 <= k < |f.close| ensures LowerChar(text[i + k]) == f.close[k] <==> SameLetter(text[i + k], f.close[k]) {
        assert LowerChar(f.close[k]) == f.close[k];
        LowerFindsTheLetter(text[i + k], f.close[k]);
      }
    }
  }

  ghost predicate NoFence(f: Fence, text: string) {
    forall i: nat :: !MatchAt(f, text, i)
  }

  /** Where copying resumes after the first n matches. */
  function CopiedUpTo(f: Fence, matches: seq<nat>, n: nat): nat
    requires n <= |matches|
  {
    if n == 0 then 0 else matches[n - 1] + |f.close|
  }

  /** The k-th match is the first one at or after the end of the one before. */
  predicate IsNextMatch(f: Fence, text: string, matches: seq<nat>, k: nat)
    requires k < |matches|
  {
    && CopiedUpTo(f, matches, k) <= matches[k] && MatchAt(f, text, matches[k])
    && forall i :: CopiedUpTo(f, matches, k) <= i < matches[k] ==> !MatchAt(f, text, i)
  }

  /** str::match_indices: every match from left to right, none overlapping. */
  predicate IsMatchList(f: Fence, text: string, matches: seq<nat>) {
    && (forall k :: 0 <= k < |matches| ==> IsNextMatch(f, text, matches, k))
    && CopiedUpTo(f, matches, |matches|) <= |text|
    && forall i :: CopiedUpTo(f, matches, |matches|) <= i < |text| ==> !MatchAt(f, text, i)
  }

  method MatchIndices(f: Fence, text: string) returns (matches: seq<nat>)
    requires f.close != ""
    ensures IsMatchList(f, text, matches)
  {
    matches := [];
    var i := 0;
    while i < |text|
      invariant CopiedUpTo(f, matches, |matches|) <= i <= |text|
      invariant forall k :: 0 <= k < |matches| ==> IsNextMatch(f, text, matches, k)
      invariant forall j :: CopiedUpTo(f, matches, |matches|) <= j < i ==> !MatchAt(f, text, j)
    {
      if MatchAt(f, text, i) {
        ghost var before := matches;
        matches := matches + [i];
        forall k | 0 <= k < |matches| ensures IsNextMatch(f, text, matches, k) {
          if k < |before| {
            assert IsNextMatch(f, text, before, k);
          }
        }
        i := i + |f.close|;
      } else {
        i := i + 1;
      }
    }
  }

  /** The k-th match comes after the one before and lies within the text. */
  predicate InPlace(f: Fence, text: string, matches: seq<nat>, k: nat)
    requires k < |matches|
  {
    CopiedUpTo(f, matches, k) <= matches[k] && matches[k] + |f.close| <= |text|
  }

  predicate InOrder(f: Fence, text: string, matches: seq<nat>, n: nat)
    requires n <= |matches|
  {
    forall k :: 0 <= k < n ==> InPlace(f, text, matches, k)
  }

  /** What the copy loop has written after n matches: the text between them, each match escaped. */
  function Written(f: Fence, text: string, matches: seq<nat>, n: nat): string
    requires n <= |matches| && InOrder(f, text, matches, n)
  {
    if n == 0 then ""
    else
      assert InPlace(f, text, matches, n - 1);
      Written(f, text, matches, n - 1) + text[CopiedUpTo(f, matches, n - 1)..matches[n - 1]] + f.escaped
  }

  lemma ListIsInOrder(f: Fence, text: string, matches: seq<nat>, n: nat)
    requires IsMatchList(f, text, matches) && n <= |matches|
    ensures InOrder(f, text, matches, n)
  {
    forall k | 0 <= k < n ensures InPlace(f, text, matches, k) {
      assert IsNextMatch(f, text, matches, k);
    }
  }

  /** `out` is `text` with every closing fence escaped and everything else verbatim. */
  predicate IsEscaping(f: Fence, text: string, matches: seq<nat>, out: string) {
    && IsMatchList(f, text, matches)
    && InOrder(f, text, matches, |matches|)
    && CopiedUpTo(f, matches, |matches|) <= |text|
    && out == Written(f, text, matches, |matches|) + text[CopiedUpTo(f, matches, |matches|)..]
  }

  method NeutralizeFence(f: Fence, text: string) returns (neutralized: string, matches: seq<nat>)
    requires FenceOk(f)
    ensures IsEscaping(f, text, matches, neutralized)
    ensures NoFence(f, neutralized)
    ensures |neutralized| == |text| + |matches|
    ensures NoFenceInAnyCase(f, neutralized) && AllAreFences(f, text, matches)
  {
    matches := MatchIndices(f, text);
    ListIsInOrder(f, text, matches, |matches|);
    neutralized := CopyAndEscape(f, text, matches);
    NothingSurvives(f, text, matches, neutralized);
    OneByteEach(f, text, matches, |matches|);
    CleanInAnyCase(f, text, matches, neutralized);
  }

  lemma CleanInAnyCase(f: Fence, text: string, matches: seq<nat>, out: string)
    requires FenceOk(f) && IsMatchList(f, text, matches) && NoFence(f, out)
    ensures NoFenceInAnyCase(f, out) && AllAreFences(f, text, matches)
  {
    forall i: nat ensures !FenceAt(f, out, i) {
      MatchIsFence(f, out, i);
    }
    forall k | 0 <= k < |matches| ensures FenceAt(f, text, matches[k]) {
      assert IsNextMatch(f, text, matches, k);
      MatchIsFence(f, text, matches[k]);
    }
  }

  method CopyAndEscape(f: Fence, text: string, matches: seq<nat>) returns (neutralized: string)
    requires InOrder(f, text, matches, |matches|)
    requires CopiedUpTo(f, matches, |matches|) <= |text|
    ensures neutralized == Written(f, text, matches, |matches|) + text[CopiedUpTo(f, matches, |matches|)..]
  {
    neutralized := "";
    var copiedUpTo := 0;
    for n := 0 to |matches|
      invariant copiedUpTo == CopiedUpTo(f, matches, n)
      invariant neutralized == Written(f, text, matches, n)
    {
      assert InPlace(f, text, matches, n);
      neutralized := neutralized + text[copiedUpTo..matches[n]] + f.escaped;
      copiedUpTo := matches[n] + |f.close|;
    }
    neutralized := neutralized + text[copiedUpTo..];
  }

  // ---------------------------------------------------------------------
  // The seams
  // ---------------------------------------------------------------------

  /** A match holds no `<` after its first character ... */
  lemma LtInsideBreaksMatch(f: Fence, text: string, j: nat, p: nat)
    requires FenceOk(f)
    requires j < p < j + |f.close| && p < |text| && text[p] == '<'
    ensures !MatchAt(f, text, j)
  {
    assert f.close[1..][p - j - 1] == f.close[p - j] != LowerChar(text[j + (p - j)]);
  }

  /** ... and begins with one. */
  lemma MatchBeginsWithLt(f: Fence, text: string, j: nat)
    requires FenceOk(f)
    requires j < |text| && text[j] != '<'
    ensures !MatchAt(f, text, j)
  {
  }

  lemma NoMatchInside(f: Fence, text: string, part: string, at: nat, j: nat)
    requires at <= j && j + |f.close| <= at + |part| <= |text| && text[at..at + |part|] == part
    requires !MatchAt(f, part, j - at)
    ensures !MatchAt(f, text, j)
  {
  }

  /** No match can straddle the seam between copied text and an inserted escape. */
  lemma SeamsHold(f: Fence, before: string, after: string)
    requires FenceOk(f) && NoFence(f, before) && NoFence(f, after)
    ensures NoFence(f, before + f.escaped + after)
  {
    var text := before + f.escaped + after;
    var a, b := |before|, |before| + |f.escaped|;
    forall j: nat | j + |f.close| <= |text| ensures !MatchAt(f, text, j) {
      if j + |f.close| <= a {
        NoMatchInside(f, text, before, 0, j);
      } else if j < a {
        LtInsideBreaksMatch(f, text, j, a);
      } else if j == a {
        assert text[j + 1] == f.escaped[1];
      } else if j < b {
        assert f.escaped[1..][j - a - 1] == text[j];
        MatchBeginsWithLt(f, text, j);
      } else {
        NoMatchInside(f, text, after, b, j);
      }
    }
  }

  /** The text between two matches holds none. */
  lemma CopiedIsClean(f: Fence, text: string, from: nat, to: nat)
    requires f.close != "" && from <= to <= |text|
    requires forall i :: from <= i < to ==> !MatchAt(f, text, i)
    ensures NoFence(f, text[from..to])
  {
    var part := text[from..to];
    forall j: nat ensures !MatchAt(f, part, j) {
      if j + |f.close| <= |part| {
        assert !MatchAt(f, text, from + j);
        var k :| 0 <= k < |f.close| && LowerChar(text[from + j + k]) != f.close[k];
        assert part[j + k] == text[from + j + k];
      }
    }
  }

  lemma {:induction false} WrittenIsClean(f: Fence, text: string, matches: seq<nat>, n: nat, rest: string)
    requires FenceOk(f) && IsMatchList(f, text, matches)
    requires n <= |matches| && InOrder(f, text, matches, n)
    requires NoFence(f, rest)
    ensures NoFence(f, Written(f, text, matches, n) + rest)
  {
    if n == 0 {
      assert "" + rest == rest;
    } else {
      assert IsNextMatch(f, text, matches, n - 1);
      var copied := text[CopiedUpTo(f, matches, n - 1)..matches[n - 1]];
      CopiedIsClean(f, text, CopiedUpTo(f, matches, n - 1), matches[n - 1]);
      SeamsHold(f, copied, rest);
      var w := Written(f, text, matches, n - 1);
      WrittenIsClean(f, text, matches, n - 1, copied + f.escaped + rest);
      assert w + copied + f.escaped + rest == w + (copied + f.escaped + rest);
    }
  }

  /** No closing fence, in any letter case, survives. */
  lemma NothingSurvives(f: Fence, text: string, matches: seq<nat>, out: string)
    requires FenceOk(f) && IsEscaping(f, text, matches, out)
    ensures NoFence(f, out)
  {
    var from := CopiedUpTo(f, matches, |matches|);
    CopiedIsClean(f, text, from, |text|);
    assert text[from..] == text[from..|text|];
    WrittenIsClean(f, text, matches, |matches|, text[from..]);
  }

  /** Escaping adds exactly one byte for each fence replaced. */
  lemma {:induction false} OneByteEach(f: Fence, text: string, matches: seq<nat>, n: nat)
    requires |f.escaped| == |f.close| + 1 && n <= |matches| && InOrder(f, text, matches, n)
    ensures |Written(f, text, matches, n)| == CopiedUpTo(f, matches, n) + n
  {
    if n > 0 {
      assert InPlace(f, text, matches, n - 1);
      OneByteEach(f, text, matches, n - 1);
    }
  }

  /** What is copied stands in the result where it stood, moved on by one byte for each match before it. */
  lemma {:induction false} WrittenKeeps(f: Fence, text: string, matches: seq<nat>, n: nat, k: nat, i: nat)
    requires |f.escaped| == |f.close| + 1 && n <= |matches| && InOrder(f, text, matches, n)
    requires k < n && CopiedUpTo(f, matches, k) <= i < matches[k] <= |text|
    ensures i + k < |Written(f, text, matches, n)| && Written(f, text, matches, n)[i + k] == text[i]
  {
    OneByteEach(f, text, matches, n - 1);
    assert InPlace(f, text, matches, n - 1);
    if k < n - 1 {
      WrittenKeeps(f, text, matches, n - 1, k, i);
    }
  }

  lemma {:induction false} WrittenEscapes(f: Fence, text: string, matches: seq<nat>, n: nat, k: nat)
    requires |f.escaped| == |f.close| + 1 && n <= |matches| && InOrder(f, text, matches, n) && k < n
    ensures StandsAt(Written(f, text, matches, n), f.escaped, matches[k] + k)
  {
    OneByteEach(f, text, matches, n - 1);
    assert InPlace(f, text, matches, n - 1);
    var whole, at := Written(f, text, matches, n), matches[k] + k;
    if k < n - 1 {
      WrittenEscapes(f, text, matches, n - 1, k);
      var before := Written(f, text, matches, n - 1);
      assert whole[..|before|] == before;
      assert whole[at..at + |f.escaped|] == before[at..at + |f.escaped|];
    }
  }

  /** Escaping is verbatim: every byte outside the matches is kept in place, every match becomes the escaped form. */
  lemma EscapingIsVerbatim(f: Fence, text: string, matches: seq<nat>, out: string, k: nat, i: nat)
    requires FenceOk(f) && IsEscaping(f, text, matches, out) && k <= |matches|
    ensures CopiedUpTo(f, matches, k) <= i < (if k < |matches| then matches[k] else |text|) ==>
              i < |text| && i + k < |out| && out[i + k] == text[i]
    ensures k < |matches| ==> StandsAt(out, f.escaped, matches[k] + k)
  {
    var n := |matches|;
    var written := Written(f, text, matches, n);
    OneByteEach(f, text, matches, n);
    assert out[..|written|] == written;
    if k < n {
      assert InPlace(f, text, matches, k);
      WrittenEscapes(f, text, matches, n, k);
      var at := matches[k] + k;
      assert out[at..at + |f.escaped|] == written[at..at + |f.escaped|];
      if CopiedUpTo(f, matches, k) <= i < matches[k] {
        WrittenKeeps(f, text, matches, n, k, i);
      }
    }
  }

  /** Clean text is left alone, so escaping twice is escaping once. */
  lemma EscapingIsIdempotent(f: Fence, text: string, matches: seq<nat>, once: string,
                             again: seq<nat>, twice: string)
    requires FenceOk(f)
    requires IsEscaping(f, text, matches, once) && IsEscaping(f, once, again, twice)
    ensures again == [] && twice == once
  {
    NothingSurvives(f, text, matches, once);
    assert again != [] ==> IsNextMatch(f, once, again, 0);
    assert again == [];
    assert once[0..] == once;
  }

  /** The slices taken at a match fall on character boundaries. */
  lemma MatchesFallOnBoundaries(f: Fence, text: string, i: nat)
    requires FenceOk(f) && IsText(text) && MatchAt(f, text, i)
    ensures IsBoundary(text, i) && IsBoundary(text, i + |f.close|)
  {
    assert LowerChar(text[i + 0]) == f.close[0];
    var last := |f.close| - 1;
    assert LowerChar(text[i + last]) == f.close[last];
  }

  // ---------------------------------------------------------------------
  // The framed message
  // ---------------------------------------------------------------------

  /** Newlines and backquotes in the operator's label become blanks. */
  function OneLine(hook: string): (r: string)
    ensures |r| == |hook| && forall i :: 0 <= i < |r| ==> r[i] != '\n' && r[i] != '\r' && r[i] != '`'
    ensures forall i :: 0 <= i < |r| && r[i] != hook[i] ==> r[i] == ' ' && hook[i] in "\n\r`"
  {
    seq(|hook|, i requires 0 <= i < |hook| =>
      if hook[i] == '\n' || hook[i] == '\r' || hook[i] == '`' then ' ' else hook[i])
  }

  function Header(f: Fence, name: string): string {
    f.beforeLabel + ['`'] + name + ['`'] + f.afterLabel
  }

  function Frame(f: Fence, name: string, body: string): string {
    Header(f, name) + ['\n'] + f.open + ['\n'] + body + ['\n'] + f.close
  }

  /** Exactly one closing fence, and it closes the text. */
  ghost predicate ClosesOnceAtTheEnd(f: Fence, text: string) {
    forall j: nat :: MatchAt(f, text, j) <==> j + |f.close| == |text|
  }

  /** The header says where the payload comes from; the payload stands between fences, escaped. */
  method FrameUntrustedWebhookPayload(f: Fence, hook: string, payload: string)
    returns (framed: string, name: string, nameMatches: seq<nat>, body: string, bodyMatches: seq<nat>)
    requires FenceOk(f)
    ensures IsEscaping(f, OneLine(hook), nameMatches, name)
    ensures IsEscaping(f, payload, bodyMatches, body)
    ensures framed == Frame(f, name, body)
    ensures ClosesOnceAtTheEnd(f, framed)
    ensures ClosesOnceInAnyCase(f, framed)
    ensures f.beforeLabel + "`" + name + "`" <= framed
    ensures Contains(framed, "\n" + f.open + "\n" + body + "\n" + f.close)
    ensures |framed| == |f.beforeLabel| + |name| + |f.afterLabel| + |f.open| + |body| + |f.close| + 5
  {
    name, nameMatches := NeutralizeFence(f, OneLine(hook));
    body, bodyMatches := NeutralizeFence(f, payload);
    framed := Frame(f, name, body);
    OneFenceAtTheEnd(f, name, body);
    forall j: nat ensures FenceAt(f, framed, j) <==> j + |f.close| == |framed| {
      MatchIsFence(f, framed, j);
    }
    FrameHoldsTheBody(f, name, body);
  }

  /** Label and body stand in the frame unchanged, the body between the two fences. */
  lemma FrameHoldsTheBody(f: Fence, name: string, body: string)
    ensures f.beforeLabel + "`" + name + "`" <= Frame(f, name, body)
    ensures Contains(Frame(f, name, body), "\n" + f.open + "\n" + body + "\n" + f.close)
  {
    var rest := "\n" + f.open + "\n" + body + "\n" + f.close;
    assert Frame(f, name, body) == Header(f, name) + rest;
    assert Frame(f, name, body)[|Header(f, name)|..|Header(f, name)| + |rest|] == rest;
    assert StandsAt(Frame(f, name, body), rest, |Header(f, name)|);
  }

  /** A character the fence does not contain keeps matches on one side of it. */
  lemma SeparatorSplits(f: Fence, a: string, c: char, b: string, j: nat)
    requires FenceOk(f) && (c == '\n' || c == '`')
    requires !MatchAt(f, a, j) && (|a| < j ==> !MatchAt(f, b, j - |a| - 1))
    ensures !MatchAt(f, a + [c] + b, j)
  {
    var text := a + [c] + b;
    if j + |f.close| <= |text| {
      if j + |f.close| <= |a| {
        NoMatchInside(f, text, a, 0, j);
      } else if j <= |a| {
        assert LowerChar(text[j + (|a| - j)]) == c != f.close[|a| - j];
      } else {
        NoMatchInside(f, text, b, |a| + 1, j);
      }
    }
  }

  lemma NoLtNoFence(f: Fence, text: string)
    requires FenceOk(f) && Lacks(text, '<')
    ensures NoFence(f, text)
  {
  }

  /**
    The framed message holds exactly one closing fence, whatever the letter case, and
    it is the frame's own, at the very end.
   */
  lemma OneFenceAtTheEnd(f: Fence, name: string, body: string)
    requires FenceOk(f) && NoFence(f, name) && NoFence(f, body)
    ensures ClosesOnceAtTheEnd(f, Frame(f, name, body))
  {
    NoLtNoFence(f, f.beforeLabel);
    NoLtNoFence(f, f.afterLabel);
    var framed := Frame(f, name, body);
    var front := Header(f, name) + ['\n'] + f.open + ['\n'] + body;
    assert framed == front + ['\n'] + f.close;
    forall j: nat ensures MatchAt(f, framed, j) <==> j + |f.close| == |framed| {
      if j + |f.close| == |framed| {
        forall k | 0 <= k < |f.close| ensures LowerChar(framed[j + k]) == f.close[k] {
          assert framed[j + k] == f.close[k];
        }
      } else {
        FrontIsClean(f, name, body, j);
        SeparatorSplits(f, front, '\n', f.close, j);
      }
    }
  }

  lemma FrontIsClean(f: Fence, name: string, body: string, j: nat)
    requires FenceOk(f) && NoFence(f, name) && NoFence(f, body)
    requires NoFence(f, f.beforeLabel) && NoFence(f, f.afterLabel)
    ensures !MatchAt(f, Header(f, name) + ['\n'] + f.open + ['\n'] + body, j)
  {
    var named := f.beforeLabel + ['`'] + name;
    SeparatorSplits(f, f.beforeLabel, '`', name, j);
    SeparatorSplits(f, named, '`', f.afterLabel, j);
    SeparatorSplits(f, Header(f, name), '\n', f.open, j);
    SeparatorSplits(f, Header(f, name) + ['\n'] + f.open, '\n', body, j);
  }

  lemma LacksConcat(a: string, b: string, c: char)
    requires Lacks(a, c) && Lacks(b, c)
    ensures Lacks(a + b, c)
  {
  }

  predicate IsLowerAscii(s: string) {
    forall i :: 0 <= i < |s| ==> s[i] as int < 0x80 && LowerChar(s[i]) == s[i]
  }
}
