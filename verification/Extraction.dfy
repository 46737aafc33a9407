/**
  What extraction hands to the summarizer, and why chunking and replacement agree
  with it on where messages end.
 */
module Extraction {
  import opened Wrappers
  import opened Utf8
  import opened History
  import opened Messages
  import opened Chunking
  import opened Sequences

  /** The entries below cutoff that may go, oldest first. */
  function Removable(h: History<Slot>, cutoff: nat): (r: seq<Slot>)
    requires cutoff <= |h.items|
    ensures |r| == VictimCount(h.PinnedIndex(), cutoff, cutoff)
  {
    var v := Victims(h.PinnedIndex(), cutoff, cutoff);
    seq(|v|, j requires 0 <= j < |v| => h.items[v[j]])
  }

  /** The last two entries (live query, reply in progress) are never offered. */
  function SummaryCutoff(length: nat): nat {
    if length > 2 then length - 2 else 0
  }

  /**
    `ends` counts the messages taken whole: as many as the budget allows, each
    recorded with the length of everything rendered up to it.
   */
  ghost predicate TakesWholeMessages(read: Reading, slots: seq<Slot>, maxChars: nat, ends: seq<nat>) {
    && |ends| <= |slots|
    && RawLengthAll(read, slots, |ends|) <= maxChars
    && (|ends| < |slots| ==> maxChars < RawLengthAll(read, slots, |ends| + 1))
    && EndsMatch(read, slots, ends)
  }

  ghost predicate EndsMatch(read: Reading, slots: seq<Slot>, ends: seq<nat>) {
    |ends| <= |slots| && forall i :: 0 <= i < |ends| ==> EndsAt(read, slots, ends, i)
  }

  ghost predicate EndsAt(read: Reading, slots: seq<Slot>, ends: seq<nat>, i: nat)
    requires i < |ends| <= |slots|
  {
    ends[i] == |Render(read, slots, i + 1)|
  }

  lemma OneMoreEnd(read: Reading, slots: seq<Slot>, ends: seq<nat>, content: string)
    requires EndsMatch(read, slots, ends) && |ends| < |slots|
    requires content == Render(read, slots, |ends| + 1)
    ensures EndsMatch(read, slots, ends + [|content|])
  {
    forall i | 0 <= i < |ends| + 1 ensures EndsAt(read, slots, ends + [|content|], i) {
      if i < |ends| {
        assert EndsAt(read, slots, ends, i);
      }
    }
  }

  /** Extraction stopped at block b of the message, which no longer fitted. */
  ghost predicate StopsAtBlock(read: Reading, message: Message, room: nat, b: nat) {
    && b < |message.content|
    && RawLength(read, message.content, b) <= room < RawLength(read, message.content, b + 1)
  }

  /** A first block too long for the budget is given in part, so that something is given. */
  function Stub(whole: string, text: string, maxChars: nat): string {
    if whole != "" then "" else text[..FloorBoundary(text, if maxChars < |text| then maxChars else |text|)]
  }

  ghost predicate PartialTail(read: Reading, slots: seq<Slot>, maxChars: nat, content: string, n: nat, b: nat)
    requires n < |slots| && RawLengthAll(read, slots, n) <= maxChars
  {
    var message := slots[n].message;
    && StopsAtBlock(read, message, maxChars - RawLengthAll(read, slots, n), b)
    && var whole := Render(read, slots, n) + RenderBlocks(read, message.role, message.content, b);
       content == whole + Stub(whole, read.text(message.content[b]), maxChars)
  }

  ghost predicate IsExtraction(read: Reading, slots: seq<Slot>, maxChars: nat, content: string, ends: seq<nat>) {
    && TakesWholeMessages(read, slots, maxChars, ends)
    && (|ends| == |slots| ==> content == Render(read, slots, |slots|))
    && (|ends| < |slots| ==> exists b :: PartialTail(read, slots, maxChars, content, |ends|, b))
  }

  /** Append one message block by block; b counts the blocks that fitted the room. */
  method ExtractMessage(read: Reading, message: Message, before: string, room: nat, maxChars: nat)
    returns (content: string, used: nat, b: nat)
    ensures b <= |message.content|
    ensures b == |message.content| ==>
      used == RawLengthOf(read, message) <= room && content == before + RenderMessage(read, message)
    ensures b < |message.content| ==>
      && StopsAtBlock(read, message, room, b)
      && var whole := before + RenderBlocks(read, message.role, message.content, b);
         content == whole + Stub(whole, read.text(message.content[b]), maxChars)
  {
    content, used, b := before, 0, 0;
    while b < |message.content|
      invariant b <= |message.content|
      invariant used == RawLength(read, message.content, b) <= room
      invariant content == before + RenderBlocks(read, message.role, message.content, b)
    {
      var text := read.text(message.content[b]);
      if used + |text| > room {
        if content == "" {
          content := text[..FloorBoundary(text, if maxChars < |text| then maxChars else |text|)];
        }
        return;
      }
      content := content + read.line(message.role, text);
      used := used + |text|;
      b := b + 1;
    }
  }

  lemma PartialEndsIt(read: Reading, slots: seq<Slot>, maxChars: nat, content: string, ends: seq<nat>, b: nat)
    requires |ends| < |slots| && RawLengthAll(read, slots, |ends|) <= maxChars
    requires EndsMatch(read, slots, ends)
    requires PartialTail(read, slots, maxChars, content, |ends|, b)
    ensures IsExtraction(read, slots, maxChars, content, ends)
  {
    var blocks := slots[|ends|].message.content;
    RawLengthGrows(read, blocks, b + 1, |blocks|);
  }

  /** Gather whole messages, oldest first, skipping the pinned one, until one does not fit. */
  method Extract(read: Reading, considered: seq<Slot>, pinned: nat, maxChars: nat, ghost slots: seq<Slot>)
    returns (content: string, coveredEnds: seq<nat>)
    requires |slots| == VictimCount(pinned, |considered|, |considered|)
    requires forall j :: 0 <= j < |slots| ==> slots[j] == considered[VictimIndex(pinned, j)]
    ensures IsExtraction(read, slots, maxChars, content, coveredEnds)
  {
    content, coveredEnds := "", [];
    var charsCollected := 0;
    for idx := 0 to |considered|
      invariant |coveredEnds| == (if idx <= pinned then idx else idx - 1)
      invariant Gathered(read, slots, maxChars, content, coveredEnds, charsCollected)
    {
      if idx == pinned {
        continue;
      }
      var message := considered[idx].message;
      assert slots[|coveredEnds|].message == message;
      ghost var before := content;
      var used, b;
      content, used, b := ExtractMessage(read, message, content, maxChars - charsCollected, maxChars);
      if b < |message.content| {
        PartialEndsIt(read, slots, maxChars, content, coveredEnds, b);
        return;
      }
      // The message went in whole: its end becomes a place to cut.
      OneMoreMessage(read, slots, maxChars, before, coveredEnds, charsCollected, content, used);
      coveredEnds := coveredEnds + [|content|];
      charsCollected := charsCollected + used;
    }
  }

  /** The loop's state: whole messages so far, each with its end. */
  ghost predicate Gathered(read: Reading, slots: seq<Slot>, maxChars: nat, content: string, ends: seq<nat>, chars: nat) {
    && |ends| <= |slots|
    && chars == RawLengthAll(read, slots, |ends|) <= maxChars
    && content == Render(read, slots, |ends|)
    && EndsMatch(read, slots, ends)
  }

  lemma OneMoreMessage(read: Reading, slots: seq<Slot>, maxChars: nat, before: string, ends: seq<nat>, chars: nat,
                       content: string, used: nat)
    requires Gathered(read, slots, maxChars, before, ends, chars) && |ends| < |slots|
    requires used == RawLengthOf(read, slots[|ends|].message) <= maxChars - chars
    requires content == before + RenderMessage(read, slots[|ends|].message)
    ensures Gathered(read, slots, maxChars, content, ends + [|content|], chars + used)
  {
    OneMoreEnd(read, slots, ends, content);
  }

  /** What extraction records is what chunking asks for. */
  lemma ExtractionGivesBoundaries(read: Reading, slots: seq<Slot>, maxChars: nat, content: string, ends: seq<nat>)
    requires IsExtraction(read, slots, maxChars, content, ends)
    ensures Boundaries(content, ends)
    ensures Render(read, slots, |ends|) <= content
    ensures LastEnd(ends) == |Render(read, slots, |ends|)|
  {
    if ends != [] {
      assert EndsAt(read, slots, ends, |ends| - 1);
    }
    if |ends| < |slots| {
      var b :| PartialTail(read, slots, maxChars, content, |ends|, b);
    }
    forall i, j | 0 <= i <= j < |ends| ensures ends[i] <= ends[j] {
      assert EndsAt(read, slots, ends, i) && EndsAt(read, slots, ends, j);
      RenderGrows(read, slots, i + 1, j + 1);
    }
    forall i | 0 <= i < |ends| ensures ends[i] <= |content| {
      assert EndsAt(read, slots, ends, i);
      RenderGrows(read, slots, i + 1, |ends|);
    }
  }

  /** How many whole messages lie within what was read. */
  function CoveredCount(ends: seq<nat>, consumed: nat): (n: nat)
    ensures n <= |ends|
    ensures forall i :: 0 <= i < n ==> ends[i] <= consumed
    ensures n < |ends| ==> consumed < ends[n]
  {
    if ends == [] || consumed < ends[0] then 0 else 1 + CoveredCount(ends[1..], consumed)
  }

  lemma {:induction false} AllCovered(ends: seq<nat>, consumed: nat)
    requires forall i :: 0 <= i < |ends| ==> ends[i] <= consumed
    ensures CoveredCount(ends, consumed) == |ends|
  {
    if ends != [] {
      AllCovered(ends[1..], consumed);
    }
  }

  /**
    The three functions agree.  When a summarizer has read the chunks of an
    extraction to their end, the messages counted as covered are exactly the ones
    extracted whole, there is at least one, and every one of them is free to go:
    neither the "window too small" nor the "nothing could be replaced" branch of
    apply_pass_summary can be reached from a successful pass.
   */
  lemma PassesAgree(read: Reading, slots: seq<Slot>, pinned: nat, cutoff: nat,
                    maxChars: nat, content: string, ends: seq<nat>)
    requires |slots| == VictimCount(pinned, cutoff, cutoff)
    requires IsExtraction(read, slots, maxChars, content, ends)
    requires LastEnd(ends) > 0
    ensures Boundaries(content, ends)
    ensures CoveredCount(ends, LastEnd(ends)) == |ends| > 0
    ensures VictimCount(pinned, cutoff, |ends|) == |ends|
    ensures LastEnd(ends) <= |content| && content[..LastEnd(ends)] == Render(read, slots, |ends|)
  {
    ExtractionGivesBoundaries(read, slots, maxChars, content, ends);
    AllCovered(ends, LastEnd(ends));
  }

  /** Everything but the last two messages and the pinned one is offered, and nothing else, oldest first. */
  lemma AllButTwoAreOffered(h: History<Slot>, i: nat)
    requires i < |h.items|
    ensures var offered := Removable(h, SummaryCutoff(|h.items|));
      && (i + 2 < |h.items| && i != h.PinnedIndex() <==>
            exists j :: 0 <= j < |offered| && VictimIndex(h.PinnedIndex(), j) == i)
      && (forall j :: 0 <= j < |offered| ==>
            VictimIndex(h.PinnedIndex(), j) + 2 < |h.items| && offered[j] == h.items[VictimIndex(h.PinnedIndex(), j)])
  {
    var p, offered := h.PinnedIndex(), Removable(h, SummaryCutoff(|h.items|));
    if i + 2 < |h.items| && i != p {
      assert VictimIndex(p, VictimNumber(p, i)) == i && VictimNumber(p, i) < |offered|;
    }
  }

  /** A stub is the longest beginning of the text within the budget, and is given only when nothing else was. */
  lemma StubIsLongestBeginning(whole: string, text: string, maxChars: nat, b: nat)
    requires b <= |text| && b <= maxChars && IsBoundary(text, b)
    ensures whole != "" ==> Stub(whole, text, maxChars) == ""
    ensures whole == "" ==> Stub(whole, text, maxChars) <= text && b <= |Stub(whole, text, maxChars)| <= maxChars
  {
    FloorFindsLast(text, if maxChars < |text| then maxChars else |text|, b);
  }

  /** What is handed on holds every text and every result of every message it covers, word for word. */
  lemma CoveredIsVerbatim(slots: seq<Slot>, maxChars: nat, content: string, ends: seq<nat>, m: nat, b: nat)
    requires IsExtraction(TRANSCRIPT, slots, maxChars, content, ends)
    requires m < |ends| <= |slots| && b < |slots[m].message.content|
    ensures Contains(content, TranscriptLine(slots[m].message.role, BlockText(slots[m].message.content[b])))
  {
    ExtractionGivesBoundaries(TRANSCRIPT, slots, maxChars, content, ends);
    var before, after := RenderHolds(TRANSCRIPT, slots, |ends|, m, b);
    var line := TranscriptLine(slots[m].message.role, BlockText(slots[m].message.content[b]));
    var rest := content[|Render(TRANSCRIPT, slots, |ends|)|..];
    assert content == Render(TRANSCRIPT, slots, |ends|) + rest;
    assert content == before + line + (after + rest);
    ContainsMiddle(before, line, after + rest);
  }
}
