/**
  The agent's context and the paths that shorten it.

  Each cut path of the source is a method here, with the source's own loops and
  index arithmetic, proved to be one Cut of the pinned history; the enforcement
  loop on top of them is proved to account for every message it takes away.
 */
module AgentContexts {
  import opened Wrappers
  import opened History
  import opened Runs
  import opened Messages
  import opened Preamble
  import opened BlockTruncation
  import opened Chunking
  import opened Extraction
  import opened Summarizing
  import opened Sequences
  import Utf8

  const PREAMBLE_ACK := "I understand the previous context. How can I help you continue?"

  /** A queued announcement that `dropped` messages went without a summary. */
  datatype LossNotice = LossNotice(dropped: nat, reason: string)

  /** What one summarization pass replaced. */
  datatype Pass = Pass(slots: seq<Slot>, summary: string)

  datatype Target = CompressionThreshold | HardLimit

  /** Model calls are an arbitrary function of the call and the candidate. */
  datatype SummarizationConfig = SummarizationConfig(
    modelPriority: seq<string>, maxIterations: nat, ask: (nat, string) -> Attempt)

  /** Every candidate of the priority list, as it behaves in one call. */
  function Attempts(config: SummarizationConfig, call: nat): (r: seq<Attempt>)
    ensures |r| == |config.modelPriority| && forall i :: 0 <= i < |r| ==> r[i] == config.ask(call, config.modelPriority[i])
  {
    seq(|config.modelPriority|, i requires 0 <= i < |config.modelPriority| => config.ask(call, config.modelPriority[i]))
  }

  const RECONDENSED_BANNER :=
    "[This summary has itself been re-condensed to make room for current " +
    "work. Earlier wording is gone; nothing it described was undone.]\n"

  /** Every line end of the text, closed by the end of the text. */
  ghost predicate AreLineEnds(text: string, ends: seq<nat>) {
    && Increasing(ends)
    && forall e :: e in ends <==> (0 < e <= |text| && (e == |text| || text[e - 1] == '\n')) || (e == |text| == 0)
  }

  lemma LineEndsAreUnique(text: string, a: seq<nat>, b: seq<nat>)
    requires AreLineEnds(text, a) && AreLineEnds(text, b)
    ensures a == b
  {
    ElementsOf(a);
    ElementsOf(b);
    assert Elements(a) == Elements(b);
    SortedSetsEqual(a, b);
  }

  /** `condensed` is what the first able candidate makes of the whole summary, and it is shorter. */
  ghost predicate Condenses(splice: seq<string> -> string, config: SummarizationConfig, call: nat,
                            summary: string, condensed: string)
  {
    && |condensed| < |summary|
    && exists ends, i, parts :: AreLineEnds(summary, ends) && |ends| >= 2
         && FirstToReadAll(Attempts(config, call), summary, ends, i, parts) && condensed == splice(parts)
  }

  /** A condensing is the winning reading, whichever way the line ends were found. */
  lemma CondensedIsTheReading(splice: seq<string> -> string, config: SummarizationConfig, call: nat,
                              summary: string, condensed: string, ends: seq<nat>)
    returns (i: nat, parts: seq<string>)
    requires Condenses(splice, config, call, summary, condensed) && AreLineEnds(summary, ends)
    ensures |ends| >= 2 && FirstToReadAll(Attempts(config, call), summary, ends, i, parts)
    ensures condensed == splice(parts)
  {
    var ends', i', parts' :| AreLineEnds(summary, ends') && |ends'| >= 2
      && FirstToReadAll(Attempts(config, call), summary, ends', i', parts') && condensed == splice(parts');
    LineEndsAreUnique(summary, ends, ends');
    i, parts := i', parts';
  }

  lemma CondensingIsUnique(splice: seq<string> -> string, config: SummarizationConfig, call: nat,
                           summary: string, condensed: string, other: string)
    requires Condenses(splice, config, call, summary, condensed) && Condenses(splice, config, call, summary, other)
    ensures condensed == other
  {
    var ends :| AreLineEnds(summary, ends);
    var i, parts := CondensedIsTheReading(splice, config, call, summary, condensed, ends);
    var j, others := CondensedIsTheReading(splice, config, call, summary, other, ends);
    ReadingIsUnique(Attempts(config, call), summary, ends, i, parts, j, others);
  }

  /** No condensing when the text cannot be chunked, nobody reads it all, or the reading is no shorter. */
  lemma WhenNothingCondenses(splice: seq<string> -> string, config: SummarizationConfig, call: nat,
                             summary: string, ends: seq<nat>, outcome: Option<(string, nat)>)
    requires AreLineEnds(summary, ends)
    requires outcome.Some? ==> exists i, parts ::
               FirstToReadAll(Attempts(config, call), summary, ends, i, parts) && outcome.value.0 == splice(parts)
    requires outcome.None? && |ends| >= 2 ==>
               forall j, parts :: 0 <= j < |config.modelPriority| ==>
                 !ReadsAll(Attempts(config, call)[j], summary, ends, parts)
    ensures (exists condensed :: Condenses(splice, config, call, summary, condensed)) <==>
              |ends| >= 2 && outcome.Some? && |outcome.value.0| < |summary|
    ensures forall condensed :: Condenses(splice, config, call, summary, condensed) ==>
              outcome.Some? && condensed == outcome.value.0
  {
    forall condensed | Condenses(splice, config, call, summary, condensed)
      ensures |ends| >= 2 && outcome.Some? && condensed == outcome.value.0
    {
      var i, parts := CondensedIsTheReading(splice, config, call, summary, condensed, ends);
      if outcome.Some? {
        var j, others :| FirstToReadAll(Attempts(config, call), summary, ends, j, others) && outcome.value.0 == splice(others);
        ReadingIsUnique(Attempts(config, call), summary, ends, i, parts, j, others);
      }
    }
    if |ends| >= 2 && outcome.Some? && |outcome.value.0| < |summary| {
      assert Condenses(splice, config, call, summary, outcome.value.0);
    }
  }

  /** Cut points at which a summary may be chunked. */
  method LineEnds(text: string) returns (ends: seq<nat>)
    ensures AreLineEnds(text, ends) && Boundaries(text, ends)
    ensures LastEnd(ends) == |text|
  {
    ends := [];
    for i := 0 to |text|
      invariant Increasing(ends) && LastEnd(ends) <= i
      invariant forall e :: e in ends <==> 0 < e <= i && text[e - 1] == '\n'
    {
      if text[i] == '\n' {
        ends := ends + [i + 1];
      }
    }
    if ends == [] || ends[|ends| - 1] != |text| {
      ends := ends + [|text|];
    }
  }

  lemma OneMoreNotice(notices: seq<LossNotice>, notice: LossNotice)
    ensures Announced(notices + [notice]) == Announced(notices) + notice.dropped
  {
  }

  lemma OneMorePass(passes: seq<Pass>, pass: Pass)
    ensures PassSlots(passes + [pass]) == PassSlots(passes) + pass.slots
  {
    assert (passes + [pass])[..|passes|] == passes;
  }

  function Announced(notices: seq<LossNotice>): nat {
    if notices == [] then 0 else Announced(notices[..|notices| - 1]) + notices[|notices| - 1].dropped
  }

  /** All messages the passes replaced, in the order they were replaced. */
  function PassSlots(passes: seq<Pass>): seq<Slot> {
    if passes == [] then [] else PassSlots(passes[..|passes| - 1]) + passes[|passes| - 1].slots
  }

  function Replaced(passes: seq<Pass>): nat {
    |PassSlots(passes)|
  }

  /** Since `before` the passes replaced, in order, exactly the r oldest unpinned messages of h. */
  ghost predicate TookOldest(h: History<Slot>, before: seq<Pass>, now: seq<Pass>, r: nat) {
    r <= MaxCut(h) && PassSlots(now) == PassSlots(before) + Oldest(h, r)
  }

  lemma RemovableAreOldest(h: History<Slot>, cutoff: nat, n: nat)
    requires h.Valid() && cutoff <= |h.items| && n <= VictimCount(h.PinnedIndex(), cutoff, cutoff)
    ensures n <= MaxCut(h) && Removable(h, cutoff)[..n] == Oldest(h, n)
  {
  }

  lemma TookMore(h: History<Slot>, before: seq<Pass>, mid: seq<Pass>, k: nat, now: seq<Pass>, more: nat)
    requires h.Valid() && TookOldest(h, before, mid, k) && TookOldest(Cut(h, k), mid, now, more)
    ensures TookOldest(h, before, now, k + more)
  {
    OldestAddUp(h, k, more);
  }

  function Uids(slots: seq<Slot>): (r: seq<nat>)
    ensures |r| == |slots|
    ensures forall i :: 0 <= i < |r| ==> r[i] == slots[i].uid
  {
    seq(|slots|, i requires 0 <= i < |slots| => slots[i].uid)
  }

  /** A history by arrival numbers alone. */
  function Numbers(h: History<Slot>): History<nat> {
    History(Uids(h.items), h.pin)
  }

  lemma CutNumbers(h: History<Slot>, k: nat)
    requires h.Valid()
    requires k < |h.items| || k == 0
    ensures Numbers(Cut(h, k)) == Cut(Numbers(h), k)
  {
  }

  /** Two stretches of a run, each a cut, make one. */
  lemma StretchesAddUp(h: History<Slot>, mid: History<Slot>, k: nat, after: History<Slot>, more: nat)
    requires h.Valid() && k <= MaxCut(h) && Numbers(mid) == Cut(Numbers(h), k)
    requires more <= MaxCut(Numbers(mid)) && Numbers(after) == Cut(Numbers(mid), more)
    requires |mid.items| > 1 ==> mid == Cut(h, k)
    requires |after.items| > 1 ==> after == Cut(mid, more)
    ensures k + more <= MaxCut(h) && Numbers(after) == Cut(Numbers(h), k + more)
    ensures |after.items| > 1 ==> after == Cut(h, k + more)
  {
    CutsAddUp(Numbers(h), k, more);
    if |after.items| > 1 {
      assert |Numbers(after).items| == |after.items|;
      CutsAddUp(h, k, more);
    }
  }

  /** Would the history, cut k times, cost more than `budget` on top of `base`? */
  predicate CutExceeds(env: Env, base: nat, h: History<Slot>, k: nat, budget: nat)
    requires k < |h.items| || k == 0
  {
    base + SlotsTokens(env, Cut(h, k).items) > budget
  }

  /** Every shorter cut than k is still over. */
  predicate AllShorterExceed(env: Env, base: nat, h: History<Slot>, k: nat, budget: nat)
    requires k <= MaxCut(h)
  {
    forall j :: 0 <= j < k ==> CutExceeds(env, base, h, j, budget)
  }

  /** The share of the budget each oversized block may keep. */
  function BlockCap(env: Env, base: nat, budget: nat, slots: seq<Slot>): nat {
    MaxBlockChars(env.charsFor(MonusNat(budget, base)), slots)
  }

  /** The oversized blocks together, each at its share, take no more than what the prompt leaves of the budget. */
  lemma CapsFitTheRoom(env: Env, base: nat, budget: nat, slots: seq<Slot>)
    ensures var cap, count := BlockCap(env, base, budget, slots), CountOversizedIn(slots);
      var room := env.charsFor(if base <= budget then budget - base else 0);
      && cap >= 100
      && (cap > 100 ==> cap * count <= room)
      && (count > 0 ==> room < (cap + 1) * count)
  {
    SharesFitTheBudget(env.charsFor(MonusNat(budget, base)), slots);
  }

  /**
    `after` is h with its k oldest unpinned entries removed for the least k whose
    remainder fits the budget, or all of them when none fits, in which case what is
    left is shrunk block by block, each to its share.
   */
  ghost predicate IsTruncation(env: Env, base: nat, budget: nat, h: History<Slot>, k: nat, after: seq<Slot>) {
    && k <= MaxCut(h)
    && AllShorterExceed(env, base, h, k, budget)
    && (if CutExceeds(env, base, h, k, budget)
        then k == MaxCut(h) && TruncatedFrom(Cut(h, k).items, after, BlockCap(env, base, budget, Cut(h, k).items))
        else after == Cut(h, k).items)
  }

  lemma TruncationShape(env: Env, base: nat, budget: nat, h: History<Slot>, k: nat, after: seq<Slot>)
    requires h.Valid()
    requires k <= MaxCut(h) && AllShorterExceed(env, base, h, k, budget)
    requires if CutExceeds(env, base, h, k, budget)
             then k == MaxCut(h) && TruncatedFrom(Cut(h, k).items, after, BlockCap(env, base, budget, Cut(h, k).items))
             else after == Cut(h, k).items
    ensures IsTruncation(env, base, budget, h, k, after)
    ensures Numbers(History(after, Cut(h, k).pin)) == Cut(Numbers(h), k)
    ensures |after| == |h.items| - k
    ensures |after| > 1 ==> after == Cut(h, k).items && base + SlotsTokens(env, after) <= budget
  {
    CutShape(h, k);
    CutNumbers(h, k);
    if CutExceeds(env, base, h, k, budget) {
      var cap := BlockCap(env, base, budget, Cut(h, k).items);
      assert forall i :: 0 <= i < |after| ==> SlotTruncated(Cut(h, k).items[i], after[i], cap);
      assert Uids(after) == Uids(Cut(h, k).items);
    }
  }

  /** Two removal loops in a row, the second starting where the first stopped, are one. */
  lemma TwoPhases(env: Env, base: nat, h: History<Slot>, first: nat, mid: History<Slot>, more: nat, budget: nat)
    requires h.Valid() && first <= MaxCut(h) && mid == Cut(h, first) && more <= MaxCut(mid)
    requires AllShorterExceed(env, base, h, first, budget)
    requires AllShorterExceed(env, base, mid, more, budget)
    ensures first + more <= MaxCut(h)
    ensures Cut(mid, more) == Cut(h, first + more)
    ensures |Cut(mid, more).items| == |h.items| - first - more
    ensures |Cut(mid, more).items| <= 1 ==> first + more == MaxCut(h)
    ensures AllShorterExceed(env, base, h, first + more, budget)
  {
    CutShape(h, first + more);
    CutShape(h, first);
    CutCompose(h, first, more);
    forall j | 0 <= j < first + more ensures CutExceeds(env, base, h, j, budget) {
      if first <= j {
        CutCompose(h, first, j - first);
        assert CutExceeds(env, base, mid, j - first, budget);
      }
    }
  }

  /** Keeping the pinned entry of the old part and all of the recent part is a cut. */
  lemma SplitIsCut(h: History<Slot>, split: nat)
    requires h.Valid() && split <= |h.items|
    ensures var n := VictimCount(h.PinnedIndex(), split, split);
      var kept := if h.PinnedIndex() < split then [h.items[h.PinnedIndex()]] else [];
      && n <= MaxCut(h)
      && Cut(h, n) == History(kept + h.items[split..],
           if h.pin.None? then None
           else Some(MonusNat(h.pin.value, if h.PinnedIndex() < split then h.PinnedIndex() else n)))
  {
  }

  /** Arrival numbers ascend and stay below the next one. */
  predicate Numbered(slots: seq<Slot>, next: nat) {
    Increasing(Uids(slots)) && forall i :: 0 <= i < |slots| ==> slots[i].uid < next
  }

  lemma CutKeepsNumbering(h: History<Slot>, k: nat, next: nat)
    requires h.Valid() && Numbered(h.items, next)
    requires k < |h.items| || k == 0
    ensures Cut(h, k).Valid() && Numbered(Cut(h, k).items, next)
  {
  }

  /** The summary slot after an unsummarized drop. */
  function DropSummary(existing: Option<string>, note: string): string {
    match existing
    case None => note
    case Some(text) => text + "\n\n---\n\n" + note
  }

  /** The summary slot after a pass: appended to what was there. */
  function AppendSummary(existing: Option<string>, replaced: nat, summary: string): string {
    match existing
    case None => summary
    case Some(text) =>
      text + "\n\n---\n\n[Additional context from " + Utf8.Decimal(replaced) + " more messages:]\n" + summary
  }

  /** The old summary stands first, the new one last, and between them the number of messages it stands for. */
  ghost predicate Appended(before: Option<string>, after: Option<string>, replaced: nat, summary: string) {
    && after.Some?
    && (before.None? ==> after.value == summary)
    && (before.Some? ==> exists lead, digits, trail ::
          after.value == before.value + (lead + digits + trail) + summary && Utf8.ValueOf(digits) == replaced && digits != "")
  }

  lemma AppendingAppends(before: Option<string>, replaced: nat, summary: string)
    ensures Appended(before, Some(AppendSummary(before, replaced, summary)), replaced, summary)
  {
    if before.Some? {
      var lead, digits, trail := "\n\n---\n\n[Additional context from ", Utf8.Decimal(replaced), " more messages:]\n";
      Utf8.DecimalReadsBack(replaced);
      assert AppendSummary(before, replaced, summary) == before.value + (lead + digits + trail) + summary;
    }
  }

  /** Nothing of the old summary is lost, nothing of the new one, and they do not overlap. */
  lemma AppendedKeepsBoth(before: Option<string>, after: Option<string>, replaced: nat, summary: string)
    requires Appended(before, after, replaced, summary)
    ensures before.Some? ==> before.value <= after.value && |before.value| + |summary| < |after.value|
    ensures |summary| <= |after.value| && after.value[|after.value| - |summary|..] == summary
  {
    if before.Some? {
      var lead, digits, trail :|
        after.value == before.value + (lead + digits + trail) + summary && Utf8.ValueOf(digits) == replaced && digits != "";
      assert after.value[|after.value| - |summary|..] == summary;
    }
  }

  /** A drop note stands behind whatever was there, set off from it. */
  lemma DroppingAppends(before: Option<string>, note: string)
    ensures var after := DropSummary(before, note);
      && (before.None? ==> after == note)
      && (before.Some? ==> after == before.value + "\n\n---\n\n" + note)
      && (before.Some? ==> before.value <= after && after[|after| - |note|..] == note)
  {
  }

  function Summaries(passes: seq<Pass>, from: nat): seq<string>
    requires from <= |passes|
  {
    seq(|passes| - from, i requires 0 <= i < |passes| - from => passes[from + i].summary)
  }

  function OldText(slot: Option<string>): seq<string> {
    if slot.Some? then [slot.value] else []
  }

  /** The slot tells what it told before and then, in order, the summary of every pass since. */
  ghost predicate Tells(slot: Option<string>, before: seq<Pass>, now: Option<string>, passes: seq<Pass>) {
    && before <= passes
    && (if passes == before then now == slot
        else now.Some? && HoldsInOrder(now.value, OldText(slot) + Summaries(passes, |before|)))
    && (slot.Some? ==> now.Some? && slot.value <= now.value)
  }

  /** One step of the loop, as the slot sees it: nothing, or one more summary behind the rest. */
  ghost predicate TellsOneMore(slot: Option<string>, before: seq<Pass>, now: Option<string>, passes: seq<Pass>) {
    || (passes == before && now == slot)
    || (exists pass :: passes == before + [pass] && Appended(slot, now, |pass.slots|, pass.summary))
  }

  lemma TellsStep(slot: Option<string>, before: seq<Pass>, mid: Option<string>, passesMid: seq<Pass>,
                  now: Option<string>, passes: seq<Pass>)
    requires Tells(slot, before, mid, passesMid) && TellsOneMore(mid, passesMid, now, passes)
    ensures Tells(slot, before, now, passes)
  {
    if !(passes == passesMid && now == mid) {
      var pass :| passes == passesMid + [pass] && Appended(mid, now, |pass.slots|, pass.summary);
      AppendedKeepsBoth(mid, now, |pass.slots|, pass.summary);
      assert Summaries(passes, |before|) == Summaries(passesMid, |before|) + [pass.summary];
      ToldBehind(slot, before, mid, passesMid, now, pass);
    }
  }

  lemma ToldBehind(slot: Option<string>, before: seq<Pass>, mid: Option<string>, passesMid: seq<Pass>,
                   now: Option<string>, pass: Pass)
    requires Tells(slot, before, mid, passesMid) && Appended(mid, now, |pass.slots|, pass.summary)
    ensures HoldsInOrder(now.value, OldText(slot) + (Summaries(passesMid, |before|) + [pass.summary]))
  {
    var told := OldText(slot) + Summaries(passesMid, |before|);
    assert OldText(slot) + (Summaries(passesMid, |before|) + [pass.summary]) == told + [pass.summary];
    if mid.None? {
      assert told == [];
      HoldsItself(now.value);
      assert told + [pass.summary] == [now.value];
    } else {
      if passesMid == before {
        assert told == [mid.value];
        HoldsItself(mid.value);
      }
      var lead, digits, trail :| now.value == mid.value + (lead + digits + trail) + pass.summary
        && Utf8.ValueOf(digits) == |pass.slots| && digits != "";
      HoldsOneMore(mid.value, told, lead + digits + trail, pass.summary);
    }
  }

  function BlockHashes(env: Env, block: Block): set<nat> {
    match block
    case Text(text) => if |text| >= DEDUP_MIN_SIZE then env.hashes(text) else {}
    case ToolResult(_, content, _) => if |content| >= DEDUP_MIN_SIZE then env.hashes(content) else {}
    case _ => {}
  }

  /** Chunk hashes of everything a pass replaces. */
  function HashesOf(env: Env, slots: seq<Slot>): set<nat> {
    set i, j, x | 0 <= i < |slots| && 0 <= j < |slots[i].message.content| &&
      x in BlockHashes(env, slots[i].message.content[j]) :: x
  }

  /** Have the candidates read the whole summary; None when that cannot be done or does not shorten it. */
  method Condense(splice: seq<string> -> string, config: SummarizationConfig, call: nat, summary: string)
    returns (condensed: Option<string>)
    ensures condensed.Some? ==> Condenses(splice, config, call, summary, condensed.value)
    ensures forall other :: Condenses(splice, config, call, summary, other) ==> condensed == Some(other)
  {
    var ends := LineEnds(summary);
    if config.modelPriority == [] || |ends| < 2 {
      WhenNothingCondenses(splice, config, call, summary, ends, None);
      return None;
    }
    var outcome := SummarizeContentWithFallback(splice, summary, ends, Attempts(config, call));
    WhenNothingCondenses(splice, config, call, summary, ends, outcome);
    if outcome.None? || |outcome.value.0| >= |summary| {
      return None;
    }
    return Some(outcome.value.0);
  }

  /** A replaced text or result of four thousand bytes or more leaves all its hashes behind, and nothing else does. */
  lemma LargeTextsAreHashed(env: Env, slots: seq<Slot>, i: nat, j: nat)
    requires i < |slots| && j < |slots[i].message.content|
    ensures var block := slots[i].message.content[j];
      && (block.Text? && 4000 <= |block.text| ==> env.hashes(block.text) <= HashesOf(env, slots))
      && (block.ToolResult? && 4000 <= |block.content| ==> env.hashes(block.content) <= HashesOf(env, slots))
  {
    assert BlockHashes(env, slots[i].message.content[j]) <= HashesOf(env, slots);
  }

  lemma HashesComeFromLargeTexts(env: Env, slots: seq<Slot>, x: nat) returns (i: nat, j: nat)
    requires x in HashesOf(env, slots)
    ensures i < |slots| && j < |slots[i].message.content|
    ensures var block := slots[i].message.content[j];
      || (block.Text? && 4000 <= |block.text| && x in env.hashes(block.text))
      || (block.ToolResult? && 4000 <= |block.content| && x in env.hashes(block.content))
  {
    i, j :| 0 <= i < |slots| && 0 <= j < |slots[i].message.content| && x in BlockHashes(env, slots[i].message.content[j]);
  }

  /** A pass leaves the last two messages where they are. */
  lemma LastTwoStay(h: History<Slot>, k: nat)
    requires h.Valid() && |h.items| >= 2 && k <= VictimCount(h.PinnedIndex(), SummaryCutoff(|h.items|), k)
    ensures k <= MaxCut(h) && |Cut(h, k).items| >= 2
    ensures Cut(h, k).items[|Cut(h, k).items| - 2..] == h.items[|h.items| - 2..]
  {
    CutShape(h, k);
    var c, n := Cut(h, k).items, |h.items|;
    assert c[|c| - 1] == h.items[n - 1] && c[|c| - 2] == h.items[n - 2];
  }

  class AgentContext {
    const env: Env
    const wording: Wording
    const preambleAck: string
    const banner: string
    var systemPrompt: string
    var messages: seq<Slot>
    var births: nat
    var maxMessages: nat
    var compressionThreshold: nat
    var hardLimit: nat
    var maxObservedGrowth: nat
    var consolidatedSummary: Option<string>
    var pendingLossNotices: seq<LossNotice>
    var summarizedHashes: set<nat>
    var pinnedRequest: Option<nat>
    /** Every replacement ever made, for the accounting below. */
    ghost var passes: seq<Pass>
    /** How often the summary slot was elided or condensed, so that its words changed. */
    ghost var rewordings: nat

    constructor (env: Env, maxMessages: nat, compressionThreshold: nat, hardLimit: nat)
      ensures this.env == env && wording == ELISION_WORDING && preambleAck == PREAMBLE_ACK && banner == RECONDENSED_BANNER
      ensures Valid() && messages == [] && pinnedRequest == None
      ensures this.maxMessages == maxMessages
      ensures this.compressionThreshold == compressionThreshold && this.hardLimit == hardLimit
      ensures consolidatedSummary == None && pendingLossNotices == [] && passes == []
      ensures Announced(pendingLossNotices) == 0 == Replaced(passes)
    {
      this.env, wording, preambleAck, banner := env, ELISION_WORDING, PREAMBLE_ACK, RECONDENSED_BANNER;
      this.maxMessages, this.compressionThreshold, this.hardLimit := maxMessages, compressionThreshold, hardLimit;
      systemPrompt, messages, births, maxObservedGrowth := "", [], 0, 0;
      consolidatedSummary, pendingLossNotices, summarizedHashes, pinnedRequest := None, [], {}, None;
      passes, rewordings := [], 0;
    }

    function View(): History<Slot>
      reads this`messages, this`pinnedRequest
    {
      History(messages, pinnedRequest)
    }

    function Ids(): History<nat>
      reads this`messages, this`pinnedRequest
    {
      Numbers(View())
    }

    /** The pin is in range; arrivals are numbered in order and below the next number. */
    ghost predicate Valid()
      reads this`messages, this`pinnedRequest, this`births
    {
      View().Valid() && Numbered(messages, births)
    }

    // -------------------------------------------------------------------
    // Estimates and limits
    // -------------------------------------------------------------------

    /** Tokens of the preamble built around a given summary. */
    function PreambleTokensWith(summary: Option<string>): nat {
      match env.preamble(summary)
      case None => 0
      case Some(text) => env.tokens(text) + env.tokens(preambleAck)
    }

    function PreambleTokens(): nat
      reads this`consolidatedSummary
    {
      PreambleTokensWith(consolidatedSummary)
    }

    /** System prompt and messages: what the tiers gate on. */
    function EstimateTokens(): nat
      reads this`messages, this`systemPrompt
    {
      env.tokens(systemPrompt) + SlotsTokens(env, messages)
    }

    /** What `limit` leaves for the messages beside the preamble. */
    function MessageBudget(limit: nat): nat
      reads this`consolidatedSummary
    {
      MonusNat(limit, PreambleTokens())
    }

    predicate ExceedsHardLimit()
      reads this`messages, this`systemPrompt, this`consolidatedSummary, this`hardLimit
    {
      EstimateTokens() > MessageBudget(hardLimit)
    }

    predicate NeedsCompression()
      reads this`messages, this`systemPrompt, this`consolidatedSummary, this`compressionThreshold
    {
      EstimateTokens() > MessageBudget(compressionThreshold)
    }

    predicate OverTarget(target: Target)
      reads this`messages, this`systemPrompt, this`consolidatedSummary, this`compressionThreshold, this`hardLimit
    {
      match target
      case CompressionThreshold => NeedsCompression()
      case HardLimit => ExceedsHardLimit()
    }

    /** System prompt, every message, the preamble and its acknowledgement together are within the hard limit. */
    predicate RequestFits()
      reads this
    {
      var preamble := match env.preamble(consolidatedSummary)
        case None => 0
        case Some(text) => env.tokens(text) + env.tokens(preambleAck);
      var rest := env.tokens(systemPrompt) + SlotsTokens(env, messages);
      rest == 0 || rest + preamble <= hardLimit
    }

    /** The gate on messages and the gate on the whole request agree, unless there is nothing but a preamble too large. */
    lemma SameInequalityExactlyWhen(limit: nat)
      ensures (EstimateTokens() > MessageBudget(limit) <==> EstimateTokens() + PreambleTokens() > limit) <==>
                !(EstimateTokens() == 0 && PreambleTokens() > limit)
      ensures ExceedsHardLimit() <==> !RequestFits()
      ensures NeedsCompression() <==> EstimateTokens() > 0 && EstimateTokens() + PreambleTokens() > compressionThreshold
      ensures OverTarget(HardLimit) == ExceedsHardLimit() && OverTarget(CompressionThreshold) == NeedsCompression()
      ensures EstimateTokens() == env.tokens(systemPrompt) + SlotsTokens(env, messages)
    {
    }

    /** The gentler gate opens first. */
    lemma GentlerGateFirst()
      requires compressionThreshold <= hardLimit
      ensures ExceedsHardLimit() ==> NeedsCompression()
    {
    }

    /** The preamble is not starved exactly when it, the prompt, the pinned message and one step's growth fit together. */
    lemma RoomAddsUp()
      ensures !PreambleStarved() <==>
                PreambleTokens() == 0 ||
                PreambleTokens() + env.tokens(systemPrompt) + StepFrameTokens() + maxObservedGrowth <= hardLimit
      ensures messages == [] ==> StepFrameTokens() == 0
      ensures messages != [] ==> StepFrameTokens() == SlotsTokens(env, [View().Pinned()]) <= SlotsTokens(env, messages)
    {
      if messages != [] {
        EveryMessageIsCounted(env, messages, View().PinnedIndex());
        assert SlotsTokens(env, [View().Pinned()]) == BlocksTokens(env, View().Pinned().message.content) + SlotsTokens(env, []);
      }
    }

    /** Elision works to what the room leaves beside everything of the preamble that is not the summary. */
    lemma AllowanceIsWhatIsLeft(summary: string, overhead: nat)
      requires PreambleTokensWith(Some(summary)) == env.tokens(summary) + overhead
      ensures var used := env.tokens(systemPrompt) + StepFrameTokens() + maxObservedGrowth + overhead;
        AllowedSummaryChars(summary) == env.charsFor(if used <= hardLimit then hardLimit - used else 0)
    {
    }

    function StepFrameTokens(): nat
      reads this`messages, this`pinnedRequest
    {
      if messages == [] then 0 else BlocksTokens(env, View().Pinned().message.content)
    }

    function PreambleRoomTarget(): nat
      reads this`messages, this`pinnedRequest, this`systemPrompt, this`hardLimit, this`maxObservedGrowth
    {
      MonusNat(hardLimit, env.tokens(systemPrompt) + StepFrameTokens() + maxObservedGrowth)
    }

    predicate PreambleStarved()
      reads this
    {
      PreambleTokens() > PreambleRoomTarget()
    }

    // -------------------------------------------------------------------
    // Adding and pinning
    // -------------------------------------------------------------------

    method PinLiveRequest()
      requires Valid()
      modifies this`pinnedRequest
      ensures Valid()
      ensures Ids() == PinLast(old(Ids()))
    {
      pinnedRequest := if |messages| == 0 then None else Some(|messages| - 1);
    }

    /** Append a turn, then enforce the message cap. */
    method AddMessage(message: Message)
      requires Valid()
      modifies this`messages, this`pinnedRequest, this`births
      ensures Valid()
      ensures births == old(births) + 1
      ensures var pushed := Push(old(View()), Slot(old(births), message));
        View() == Cut(pushed, TrimCount(|pushed.items|, maxMessages))
      ensures |messages| == if |old(messages)| < maxMessages then |old(messages)| + 1
                            else if maxMessages == 0 then 1 else maxMessages
      ensures Ids() == Apply(old(Ids()), Add(old(births)), maxMessages)
    {
      var pushed := Push(View(), Slot(births, message));
      messages := messages + [Slot(births, message)];
      births := births + 1;
      TrimIfNeeded();
      CutNumbers(pushed, TrimCount(|pushed.items|, maxMessages));
      assert Numbers(pushed).items == Push(old(Ids()), old(births)).items;
    }

    /** A push straight onto the public list, as the agent loop does it: no cap is enforced. */
    method PushMessage(message: Message)
      requires Valid()
      modifies this`messages, this`births
      ensures Valid()
      ensures births == old(births) + 1
      ensures View() == Push(old(View()), Slot(old(births), message))
      ensures Ids() == Apply(old(Ids()), Append(old(births)), maxMessages)
    {
      messages := messages + [Slot(births, message)];
      births := births + 1;
    }

    /** Take out one message; a pin behind it follows its message down. */
    method RemoveMessage(index: nat)
      requires Valid()
      modifies this`messages, this`pinnedRequest
      ensures View() == RemoveAt(old(View()), index)
      ensures index != old(View()).PinnedIndex() ==> Valid()
    {
      if index >= |messages| {
        return;
      }
      messages := messages[..index] + messages[index + 1..];
      if pinnedRequest.Some? && index < pinnedRequest.value {
        pinnedRequest := Some(pinnedRequest.value - 1);
      }
    }

    method TrimIfNeeded()
      requires Valid()
      modifies this`messages, this`pinnedRequest
      ensures Valid()
      ensures View() == Cut(old(View()), TrimCount(|old(messages)|, maxMessages))
      ensures |messages| == if |old(messages)| <= maxMessages || |old(messages)| == 0 then |old(messages)|
                            else if maxMessages == 0 then 1 else maxMessages
    {
      ghost var h, k := View(), 0;
      while |messages| > maxMessages
        invariant Valid()
        invariant k <= TrimCount(|h.items|, maxMessages) && View() == Cut(h, k)
        decreases |messages|
      {
        if |messages| > 1 {
          FrontStep(h, k, 0);
        }
        var victim := OldestRemovable(View(), 0);
        if victim.None? {
          break;
        }
        RemoveMessage(victim.value);
        k := k + 1;
      }
      CutShape(h, k);
    }

    // -------------------------------------------------------------------
    // Cutting without a model
    // -------------------------------------------------------------------

    /** The character allowance elision of `summary` works to. */
    function AllowedSummaryChars(summary: string): nat
      reads this`messages, this`pinnedRequest, this`systemPrompt, this`hardLimit, this`maxObservedGrowth
    {
      env.charsFor(MonusNat(PreambleRoomTarget(), MonusNat(PreambleTokensWith(Some(summary)), env.tokens(summary))))
    }

    /** What elision makes of `summary`, when it starves the messages and eliding shrinks it. */
    function ElidedFrom(summary: string): (r: Option<string>)
      reads this`messages, this`pinnedRequest, this`systemPrompt, this`hardLimit, this`maxObservedGrowth
      ensures r.Some? ==> |r.value| < |summary| && PreambleTokensWith(Some(summary)) > PreambleRoomTarget()
    {
      if PreambleTokensWith(Some(summary)) <= PreambleRoomTarget() then None
      else
        var r := Elide(wording, summary, AllowedSummaryChars(summary));
        assert r.Some? ==> |r.value| < |summary| by {
          if r.Some? { ElisionIsFaithful(wording, summary, AllowedSummaryChars(summary)); }
        }
        r
    }

    /** What elision would leave of the summary slot. */
    function ElidedSummary(): (r: Option<string>)
      reads this
      ensures r.Some? ==> consolidatedSummary.Some? && |r.value| < |consolidatedSummary.value|
    {
      if consolidatedSummary.None? then None else ElidedFrom(consolidatedSummary.value)
    }

    /** Elision happens exactly when the preamble starves the messages and the elided text, by length, is worth it. */
    lemma ElidesExactlyWhen()
      ensures ElidedSummary().Some? <==>
                && consolidatedSummary.Some? && PreambleStarved()
                && AllowedSummaryChars(consolidatedSummary.value) < |consolidatedSummary.value|
                && ElidedLength(wording, consolidatedSummary.value, AllowedSummaryChars(consolidatedSummary.value))
                     < |consolidatedSummary.value|
      ensures ElidedSummary().Some? ==>
                ElidedSummary() == Elide(wording, consolidatedSummary.value, AllowedSummaryChars(consolidatedSummary.value))
    {
      if consolidatedSummary.Some? && AllowedSummaryChars(consolidatedSummary.value) < |consolidatedSummary.value| {
        ElisionDeclines(wording, consolidatedSummary.value, AllowedSummaryChars(consolidatedSummary.value));
      }
    }

    /** Shrink the summary so the preamble fits its room; true only if it got shorter. */
    method ElidePreambleToFit() returns (changed: bool)
      modifies this`consolidatedSummary, this`rewordings
      ensures changed == old(ElidedSummary().Some?)
      ensures consolidatedSummary == if changed then old(ElidedSummary()) else old(consolidatedSummary)
      ensures changed ==> |consolidatedSummary.value| < |old(consolidatedSummary).value|
      ensures old(rewordings) <= rewordings
      ensures rewordings == old(rewordings) + if changed then 1 else 0
    {
      var elided := ElidedSummary();
      if elided.None? {
        return false;
      }
      consolidatedSummary := elided;
      rewordings := rewordings + 1;
      return true;
    }

    /**
      Get under the hard limit: elide the preamble, then remove the k oldest
      unpinned messages for the least k that fits, or all of them if none does;
      only then shrink what is left in place.
     */
    method TruncateToLimit() returns (removed: nat)
      requires Valid()
      modifies this`messages, this`pinnedRequest, this`consolidatedSummary, this`rewordings
      ensures Valid()
      ensures IsTruncation(env, env.tokens(systemPrompt), MessageBudget(hardLimit), old(View()), removed, messages)
      ensures removed <= MaxCut(old(View())) && Ids() == Cut(old(Ids()), removed)
      ensures |messages| > 1 ==> View() == Cut(old(View()), removed)
      ensures ExceedsHardLimit() ==> |messages| <= 1
      ensures consolidatedSummary == old(if ExceedsHardLimit() && ElidedSummary().Some? then ElidedSummary()
                                         else consolidatedSummary)
      ensures old(rewordings) <= rewordings
      ensures rewordings == old(rewordings) ==> consolidatedSummary == old(consolidatedSummary)
      ensures |messages| > 1 ==> RequestFits()
    {
      if ExceedsHardLimit() {
        var _ := ElidePreambleToFit();
      }
      ghost var h := View();
      removed := RemoveUntilUnder();
      ghost var base, budget := env.tokens(systemPrompt), MessageBudget(hardLimit);
      ghost var over := ExceedsHardLimit();
      assert over == CutExceeds(env, base, h, removed, budget);
      ShrinkWhatIsLeft();
      TruncationShape(env, base, budget, h, removed, messages);
    }

    /** The two removal loops: first keep the live tail, then give it up too; never the pinned request. */
    method RemoveUntilUnder() returns (removed: nat)
      requires Valid()
      modifies this`messages, this`pinnedRequest
      ensures Valid()
      ensures removed <= MaxCut(old(View())) && View() == Cut(old(View()), removed)
      ensures AllShorterExceed(env, env.tokens(systemPrompt), old(View()), removed, MessageBudget(hardLimit))
      ensures ExceedsHardLimit() ==> removed == MaxCut(old(View()))
    {
      ghost var h, base, budget := View(), env.tokens(systemPrompt), MessageBudget(hardLimit);
      removed := RemoveOldestWhileOver(1);
      ghost var mid := View();
      var more := RemoveOldestWhileOver(0);
      TwoPhases(env, base, h, removed, mid, more, budget);
      removed := removed + more;
    }

    /** The end of a truncation: cap the blocks of what survives if it is still too much. */
    method ShrinkWhatIsLeft()
      requires Valid()
      modifies this`messages
      ensures Valid() && Ids() == old(Ids())
      ensures if old(ExceedsHardLimit())
              then TruncatedFrom(old(messages), messages,
                                 BlockCap(env, env.tokens(systemPrompt), MessageBudget(hardLimit), old(messages)))
              else messages == old(messages)
    {
      if ExceedsHardLimit() && |messages| > 0 {
        TruncateLargeContentBlocks();
      }
    }

    /** One truncation loop: drop the oldest removable message while over and the tail is spared. */
    method RemoveOldestWhileOver(keepTail: nat) returns (removed: nat)
      requires Valid()
      modifies this`messages, this`pinnedRequest
      ensures Valid()
      ensures removed <= MaxCut(old(View())) && View() == Cut(old(View()), removed)
      ensures AllShorterExceed(env, env.tokens(systemPrompt), old(View()), removed, MessageBudget(hardLimit))
      ensures ExceedsHardLimit() ==> |messages| <= keepTail + 1
    {
      removed := 0;
      ghost var h, budget := View(), MessageBudget(hardLimit);
      while ExceedsHardLimit() && |messages| > keepTail + 1
        invariant Valid() && budget == MessageBudget(hardLimit)
        invariant removed <= MaxCut(h) && View() == Cut(h, removed)
        invariant AllShorterExceed(env, env.tokens(systemPrompt), h, removed, budget)
        decreases |messages|
      {
        FrontStep(h, removed, keepTail);
        var victim := OldestRemovable(View(), keepTail);
        if victim.None? {
          break;
        }
        assert CutExceeds(env, env.tokens(systemPrompt), h, removed, budget);
        RemoveMessage(victim.value);
        removed := removed + 1;
      }
    }

    /** Cap every text and tool result; nothing moves and nothing goes. */
    method TruncateLargeContentBlocks()
      requires Valid()
      modifies this`messages
      ensures Valid() && Ids() == old(Ids())
      ensures TruncatedFrom(old(messages), messages,
                            BlockCap(env, env.tokens(systemPrompt), MessageBudget(hardLimit), old(messages)))
    {
      var cap := BlockCap(env, env.tokens(systemPrompt), MessageBudget(hardLimit), messages);
      var capped := TruncateBlocks(messages, cap);
      assert forall i :: 0 <= i < |messages| ==> SlotTruncated(messages[i], capped[i], cap);
      assert Uids(capped) == Uids(messages);
      messages := capped;
    }

    /** Remove the first `limit` removable messages below cutoff, newest of them first. */
    method RemoveVictims(cutoff: nat, limit: nat) returns (count: nat)
      requires Valid() && cutoff <= |messages|
      modifies this`messages, this`pinnedRequest
      ensures Valid()
      ensures count == VictimCount(old(View()).PinnedIndex(), cutoff, limit) <= MaxCut(old(View()))
      ensures View() == Cut(old(View()), count)
    {
      ghost var h := View();
      var victims := Victims(View().PinnedIndex(), cutoff, limit);
      count := |victims|;
      var j: nat := |victims|;
      while j > 0
        invariant j <= count < |h.items| || j == count == 0
        invariant View() == CutRange(h, j, count)
        invariant Valid()
      {
        j := j - 1;
        RemoveFromTheBack(h, j, count);
        assert victims[j] == VictimIndex(h.PinnedIndex(), j);
        RemoveMessage(victims[j]);
        assert View() == CutRange(h, j, count);
      }
    }

    /** Drop everything unpinned before the recent tail, leaving a note of what went. */
    method DropOldest(keepRecent: nat) returns (dropped: nat)
      requires Valid()
      modifies this`messages, this`pinnedRequest, this`consolidatedSummary
      ensures Valid()
      ensures dropped <= MaxCut(old(View())) && View() == Cut(old(View()), dropped)
      ensures Ids() == Cut(old(Ids()), dropped)
      ensures dropped == if |old(messages)| <= keepRecent + 1 then 0
                         else VictimCount(old(View()).PinnedIndex(), |old(messages)| - keepRecent, |old(messages)|)
      ensures |old(messages)| > keepRecent + 1 ==> dropped > 0 && |messages| <= keepRecent + 1
      ensures consolidatedSummary == if dropped == 0 then old(consolidatedSummary) else
        Some(DropSummary(old(consolidatedSummary), env.dropNote(Removable(old(View()), |old(messages)| - keepRecent))))
    {
      if |messages| <= keepRecent + 1 {
        CutNumbers(View(), 0);
        return 0;
      }
      ghost var h := View();
      var cutoff := |messages| - keepRecent;
      var note := env.dropNote(Removable(View(), cutoff));
      consolidatedSummary := Some(DropSummary(consolidatedSummary, note));
      dropped := RemoveVictims(cutoff, |messages|);
      CutShape(h, dropped);
      CutNumbers(h, dropped);
    }

    /** Summarize everything unpinned before the recent tail with one model call. */
    method Compress(keepRecent: nat, reply: Option<string>) returns (compressed: Option<nat>)
      requires Valid()
      modifies this`messages, this`pinnedRequest, this`consolidatedSummary
      ensures Valid()
      ensures compressed.None? <==> |old(messages)| > keepRecent && reply.None?
      ensures var n := if compressed.None? || |old(messages)| <= keepRecent then 0
                       else VictimCount(old(View()).PinnedIndex(), |old(messages)| - keepRecent, |old(messages)| - keepRecent);
        && n <= MaxCut(old(View()))
        && View() == Cut(old(View()), n)
        && (compressed.Some? ==> compressed.value == n && |messages| <= keepRecent + 1)
      ensures consolidatedSummary ==
              if compressed.Some? && |old(messages)| > keepRecent
              then Some(AppendSummary(old(consolidatedSummary), compressed.value, reply.value))
              else old(consolidatedSummary)
      ensures compressed.Some? && |old(messages)| > keepRecent ==>
                Appended(old(consolidatedSummary), consolidatedSummary, compressed.value, reply.value)
    {
      if |messages| <= keepRecent {
        return Some(0);
      }
      if reply.None? {
        return None;
      }
      var n := KeepPinnedAndRecent(|messages| - keepRecent);
      AppendingAppends(consolidatedSummary, n, reply.value);
      consolidatedSummary := Some(AppendSummary(consolidatedSummary, n, reply.value));
      return Some(n);
    }

    /** Keep the pinned message of the old part and everything recent; returns how many went. */
    method KeepPinnedAndRecent(splitPoint: nat) returns (n: nat)
      requires Valid() && splitPoint <= |messages|
      modifies this`messages, this`pinnedRequest
      ensures Valid()
      ensures n == VictimCount(old(View()).PinnedIndex(), splitPoint, splitPoint) <= MaxCut(old(View()))
      ensures View() == Cut(old(View()), n)
    {
      SplitIsCut(View(), splitPoint);
      var pinned := View().PinnedIndex();
      var oldIndices := Victims(pinned, splitPoint, splitPoint);
      n := |oldIndices|;
      CutKeepsNumbering(View(), n, births);
      // Every victim is before the pin unless the pin is among the old messages.
      var removedBeforePin := if pinned < splitPoint then pinned else n;
      var kept := if pinned < splitPoint then [messages[pinned]] else [];
      messages := kept + messages[splitPoint..];
      if pinnedRequest.Some? {
        pinnedRequest := Some(MonusNat(pinnedRequest.value, removedBeforePin));
      }
    }

    // -------------------------------------------------------------------
    // Summarizing
    // -------------------------------------------------------------------

    method ExtractContentForSummarization(maxChars: nat) returns (content: string, coveredEnds: seq<nat>)
      requires Valid()
      ensures IsExtraction(TRANSCRIPT, Removable(View(), SummaryCutoff(|messages|)), maxChars, content, coveredEnds)
    {
      var cutoff := SummaryCutoff(|messages|);
      content, coveredEnds := Extract(TRANSCRIPT, messages[..cutoff], View().PinnedIndex(), maxChars, Removable(View(), cutoff));
    }

    /** Queue an announcement, unless nothing was dropped. */
    method PushSummarizationFailureNotice(dropped: nat, reason: string)
      modifies this`pendingLossNotices
      ensures pendingLossNotices ==
              if dropped == 0 then old(pendingLossNotices) else old(pendingLossNotices) + [LossNotice(dropped, reason)]
      ensures Announced(pendingLossNotices) == Announced(old(pendingLossNotices)) + dropped
    {
      if dropped > 0 {
        OneMoreNotice(pendingLossNotices, LossNotice(dropped, reason));
        pendingLossNotices := pendingLossNotices + [LossNotice(dropped, reason)];
      }
    }

    /** Remove the first `covered` removable messages and let the summary stand for them. */
    method ReplaceWithSummary(covered: nat, summary: string) returns (removed: nat)
      requires Valid()
      modifies this`messages, this`pinnedRequest, this`consolidatedSummary, this`summarizedHashes, this`passes
      ensures Valid()
      ensures removed == VictimCount(old(View()).PinnedIndex(), SummaryCutoff(|old(messages)|), covered) <= MaxCut(old(View()))
      ensures View() == Cut(old(View()), removed)
      ensures var slots := Oldest(old(View()), removed);
        if removed == 0 then
          passes == old(passes) && consolidatedSummary == old(consolidatedSummary) && summarizedHashes == old(summarizedHashes)
        else
          && passes == old(passes) + [Pass(slots, summary)]
          && consolidatedSummary == Some(AppendSummary(old(consolidatedSummary), removed, summary))
          && summarizedHashes == old(summarizedHashes) + HashesOf(env, slots)
      ensures TookOldest(old(View()), old(passes), passes, removed)
      ensures removed > 0 ==> Appended(old(consolidatedSummary), consolidatedSummary, removed, summary)
      ensures |old(messages)| >= 2 ==> |messages| >= 2 && messages[|messages| - 2..] == old(messages)[|old(messages)| - 2..]
    {
      var cutoff := SummaryCutoff(|messages|);
      removed := VictimCount(View().PinnedIndex(), cutoff, covered);
      RemovableAreOldest(View(), cutoff, removed);
      if removed > 0 {
        RecordPass(Removable(View(), cutoff)[..removed], summary);
      }
      ghost var h := View();
      var _ := RemoveVictims(cutoff, covered);
      if |h.items| >= 2 {
        LastTwoStay(h, removed);
      }
    }

    /** Let the summary stand for these messages. */
    method RecordPass(slots: seq<Slot>, summary: string)
      modifies this`consolidatedSummary, this`summarizedHashes, this`passes
      ensures passes == old(passes) + [Pass(slots, summary)] && PassSlots(passes) == PassSlots(old(passes)) + slots
      ensures consolidatedSummary == Some(AppendSummary(old(consolidatedSummary), |slots|, summary))
      ensures summarizedHashes == old(summarizedHashes) + HashesOf(env, slots)
      ensures Appended(old(consolidatedSummary), consolidatedSummary, |slots|, summary)
    {
      summarizedHashes := summarizedHashes + HashesOf(env, slots);
      AppendingAppends(consolidatedSummary, |slots|, summary);
      consolidatedSummary := Some(AppendSummary(consolidatedSummary, |slots|, summary));
      OneMorePass(passes, Pass(slots, summary));
      passes := passes + [Pass(slots, summary)];
    }

    /** k messages went since the given state, each summarized or announced. */
    ghost predicate Accounts(ids: History<nat>, passesBefore: seq<Pass>, noticesBefore: seq<LossNotice>, k: nat)
      reads this
    {
      && k <= MaxCut(ids) && Ids() == Cut(ids, k)
      && passesBefore <= passes && noticesBefore <= pendingLossNotices
      && k == Replaced(passes) - Replaced(passesBefore) + Announced(pendingLossNotices) - Announced(noticesBefore)
    }

    /** A truncation, as far as the accounts go. */
    method TruncateCounting() returns (dropped: nat)
      requires Valid()
      modifies this`messages, this`pinnedRequest, this`consolidatedSummary, this`rewordings
      ensures Valid()
      ensures dropped <= MaxCut(old(Ids())) && Ids() == Cut(old(Ids()), dropped)
      ensures ExceedsHardLimit() ==> |messages| <= 1
      ensures |messages| > 1 ==> View() == Cut(old(View()), dropped)
      ensures old(rewordings) <= rewordings
      ensures rewordings == old(rewordings) ==> consolidatedSummary == old(consolidatedSummary)
      ensures |messages| > 1 ==> RequestFits()
    {
      dropped := TruncateToLimit();
    }

    /** Truncate and announce what that dropped. */
    method TruncateAnnouncing(reason: string) returns (dropped: nat)
      requires Valid()
      modifies this`messages, this`pinnedRequest, this`consolidatedSummary, this`rewordings, this`pendingLossNotices
      ensures Valid()
      ensures Accounts(old(Ids()), old(passes), old(pendingLossNotices), dropped)
      ensures ExceedsHardLimit() ==> |messages| <= 1
      ensures |messages| > 1 ==> View() == Cut(old(View()), dropped)
      ensures old(rewordings) <= rewordings
      ensures rewordings == old(rewordings) ==> consolidatedSummary == old(consolidatedSummary)
    {
      dropped := TruncateCounting();
      PushSummarizationFailureNotice(dropped, reason);
    }

    /**
      Replace what one pass read.  False when it could replace nothing; the context
      has then been truncated, or there was nothing to lose.
     */
    method ApplyPassSummary(summary: string, consumed: nat, coveredEnds: seq<nat>) returns (replaced: bool, ghost k: nat)
      requires Valid()
      modifies this`messages, this`pinnedRequest, this`consolidatedSummary, this`rewordings, this`summarizedHashes, this`passes,
               this`pendingLossNotices
      ensures Valid()
      ensures Accounts(old(Ids()), old(passes), old(pendingLossNotices), k)
      ensures var count := VictimCount(old(View()).PinnedIndex(), SummaryCutoff(|old(messages)|), CoveredCount(coveredEnds, consumed));
        && (replaced <==> count > 0)
        && (replaced ==> k == count && |messages| == |old(messages)| - count && View() == Cut(old(View()), count))
      ensures if replaced then TookOldest(old(View()), old(passes), passes, k) && pendingLossNotices == old(pendingLossNotices)
              else passes == old(passes)
      ensures |messages| > 1 ==> View() == Cut(old(View()), k)
      ensures old(rewordings) <= rewordings
      ensures rewordings == old(rewordings) ==>
                TellsOneMore(old(consolidatedSummary), old(passes), consolidatedSummary, passes)
    {
      var covered := CoveredCount(coveredEnds, consumed);
      if covered == 0 {
        k := TruncateAnnouncing("the summarization model's window is too small to read even one whole message");
        return false, k;
      }
      ghost var h := View();
      var removed := ReplaceWithSummary(covered, summary);
      CutShape(h, removed);
      CutNumbers(h, removed);
      k := removed;
      if removed == 0 {
        PushSummarizationFailureNotice(0, "the summarized messages were all pinned or reserved");
        return false, k;
      }
      return true, k;
    }

    /**
      Is a summary condensed to `condensed`, under its banner, shorter than `summary`?
      Either the banner costs less than the condensing saved, or the preamble is
      still too big with it and eliding it gets below `summary`.
     */
    predicate CondensingPays(summary: string, condensed: string)
      reads this`messages, this`pinnedRequest, this`systemPrompt, this`hardLimit, this`maxObservedGrowth
    {
      var kept := banner + condensed;
      || |banner| + |condensed| < |summary|
      || (&& PreambleTokensWith(Some(kept)) > PreambleRoomTarget()
          && AllowedSummaryChars(kept) < |kept|
          && ElidedLength(wording, kept, AllowedSummaryChars(kept)) < |summary|)
    }

    /** The elision of a condensed summary, and when it ends up below the old one. */
    lemma PaysExactlyWhenShorter(summary: string, condensed: string)
      requires |condensed| < |summary|
      ensures var kept := banner + condensed;
        && |ElidedFrom(kept).GetOr(kept)| <= |kept|
        && (|ElidedFrom(kept).GetOr(kept)| < |summary| <==> CondensingPays(summary, condensed))
    {
      var kept := banner + condensed;
      if AllowedSummaryChars(kept) < |kept| {
        ElisionDeclines(wording, kept, AllowedSummaryChars(kept));
      }
    }

    /**
      Re-summarize the summary itself when it crowds out the messages; elide when
      that does not help.  A shorter reading of the whole summary is kept under a
      banner the length test does not count, so a change makes the slot shorter
      exactly when the banner, after elision, is worth it.
     */
    method CompactPreamble(config: SummarizationConfig, call: nat) returns (changed: bool)
      modifies this`consolidatedSummary, this`rewordings
      ensures !old(PreambleStarved()) || old(consolidatedSummary).None? ==> !changed
      ensures !changed ==> consolidatedSummary == old(consolidatedSummary)
      ensures changed ==>
                && old(consolidatedSummary).Some? && consolidatedSummary.Some?
                && |consolidatedSummary.value| < |old(consolidatedSummary).value| + |banner|
      ensures changed ==>
                var summary := old(consolidatedSummary).value;
                |consolidatedSummary.value| < |summary| <==>
                  forall condensed :: Condenses(env.splice, config, call, summary, condensed) ==> CondensingPays(summary, condensed)
      ensures old(PreambleStarved()) && old(consolidatedSummary).Some? ==>
                var summary := old(consolidatedSummary).value;
                if exists condensed :: Condenses(env.splice, config, call, summary, condensed) then
                  && changed
                  && (exists condensed :: Condenses(env.splice, config, call, summary, condensed)
                        && consolidatedSummary == Some(ElidedFrom(banner + condensed).GetOr(banner + condensed)))
                else
                  changed == old(ElidedSummary()).Some? && (changed ==> consolidatedSummary == old(ElidedSummary()))
      ensures old(rewordings) <= rewordings
      ensures rewordings == old(rewordings) ==> consolidatedSummary == old(consolidatedSummary)
    {
      if !PreambleStarved() || consolidatedSummary.None? {
        return false;
      }
      var summary := consolidatedSummary.value;
      var condensed := Condense(env.splice, config, call, summary);
      if condensed.None? {
        changed := ElidePreambleToFit();
        return;
      }
      PaysExactlyWhenShorter(summary, condensed.value);
      KeepCondensed(condensed.value);
      return true;
    }

    /** The condensed summary goes in under its banner; elision takes over when it is still too big. */
    method KeepCondensed(condensed: string)
      modifies this`consolidatedSummary, this`rewordings
      ensures consolidatedSummary == Some(ElidedFrom(banner + condensed).GetOr(banner + condensed))
      ensures old(rewordings) <= rewordings
      ensures old(rewordings) < rewordings
    {
      consolidatedSummary := Some(banner + condensed);
      rewordings := rewordings + 1;
      var _ := ElidePreambleToFit();
    }

    /** Accounts of two stretches add up, and so do their cuts. */
    lemma AddUp(h: History<Slot>, passesBefore: seq<Pass>, noticesBefore: seq<LossNotice>, k: nat,
                mid: History<Slot>, passesMid: seq<Pass>, noticesMid: seq<LossNotice>, more: nat) returns (total: nat)
      requires h.Valid() && k <= MaxCut(h) && Numbers(mid) == Cut(Numbers(h), k)
      requires passesBefore <= passesMid && noticesBefore <= noticesMid
      requires k == Replaced(passesMid) - Replaced(passesBefore) + Announced(noticesMid) - Announced(noticesBefore)
      requires Accounts(Numbers(mid), passesMid, noticesMid, more)
      requires |mid.items| > 1 ==> mid == Cut(h, k)
      requires |messages| > 1 ==> View() == Cut(mid, more)
      ensures total == k + more
      ensures Accounts(Numbers(h), passesBefore, noticesBefore, total)
      ensures |messages| > 1 ==> View() == Cut(h, total)
    {
      total := k + more;
      StretchesAddUp(h, mid, k, View(), more);
    }

    /** Within the hard limit, or down to the one message that may not go. */
    predicate Enforced()
      reads this
    {
      !ExceedsHardLimit() || |messages| <= 1
    }

    /**
      Extract, summarize and replace; on failure truncate.  True exactly when some
      candidate read the whole extraction, and then the list is strictly shorter:
      the refusals of ApplyPassSummary cannot follow a successful reading.
     */
    method SummarizeOldest(config: SummarizationConfig, call: nat) returns (replaced: bool, ghost k: nat)
      requires Valid()
      modifies this`messages, this`pinnedRequest, this`consolidatedSummary, this`rewordings, this`summarizedHashes, this`passes,
               this`pendingLossNotices
      ensures Valid()
      ensures Accounts(old(Ids()), old(passes), old(pendingLossNotices), k)
      ensures replaced ==> |messages| < |old(messages)| && View() == Cut(old(View()), k)
      ensures if replaced then TookOldest(old(View()), old(passes), passes, k) else passes == old(passes)
      ensures !replaced ==> Enforced()
      ensures |messages| > 1 ==> View() == Cut(old(View()), k)
      ensures old(rewordings) <= rewordings
      ensures rewordings == old(rewordings) ==>
                TellsOneMore(old(consolidatedSummary), old(passes), consolidatedSummary, passes)
    {
      var content, coveredEnds := ExtractContentForSummarization(4 * hardLimit);
      if content == "" {
        k := TruncateAnnouncing("the remaining history has no summarizable middle");
        return false, k;
      }
      ghost var slots := Removable(View(), SummaryCutoff(|messages|));
      ExtractionGivesBoundaries(TRANSCRIPT, slots, 4 * hardLimit, content, coveredEnds);
      var outcome := SummarizeContentWithFallback(env.splice, content, coveredEnds, Attempts(config, call));
      if outcome.None? {
        k := TruncateAnnouncing("every summarization model failed");
        return false, k;
      }
      PassesAgree(TRANSCRIPT, slots, View().PinnedIndex(), SummaryCutoff(|messages|), 4 * hardLimit, content, coveredEnds);
      replaced, k := ApplyPassSummary(outcome.value.0, outcome.value.1, coveredEnds);
      assert replaced;
    }

    /** One pass of the loop; `again` says whether another one may follow. */
    method SummarizationPass(config: SummarizationConfig, target: Target, call: nat) returns (again: bool, ghost k: nat)
      requires Valid()
      modifies this`messages, this`pinnedRequest, this`consolidatedSummary, this`rewordings, this`summarizedHashes, this`passes,
               this`pendingLossNotices
      ensures Valid()
      ensures Accounts(old(Ids()), old(passes), old(pendingLossNotices), k)
      ensures again ==> |messages| < |old(messages)| && View() == Cut(old(View()), k)
      ensures if again then TookOldest(old(View()), old(passes), passes, k) else passes == old(passes)
      ensures !again ==> !OverTarget(target) || Enforced()
      ensures |messages| > 1 ==> View() == Cut(old(View()), k)
      ensures old(rewordings) <= rewordings
      ensures rewordings == old(rewordings) ==>
                TellsOneMore(old(consolidatedSummary), old(passes), consolidatedSummary, passes)
    {
      // The preamble is the part no message-side cut can reach: shrink it first.
      var preambleShrunk := CompactPreamble(config, 2 * call);
      if preambleShrunk && !OverTarget(target) {
        return false, 0;
      }
      again, k := SummarizeOldest(config, 2 * call + 1);
    }

    /** One more pass: accounts and cuts add up, and a pass that replaced took the oldest that were left. */
    lemma OnePassOn(h: History<Slot>, passesBefore: seq<Pass>, noticesBefore: seq<LossNotice>, k: nat,
                    passesMid: seq<Pass>, noticesMid: seq<LossNotice>, again: bool, more: nat)
      returns (total: nat, r: nat)
      requires h.Valid() && k <= MaxCut(h) && Numbers(Cut(h, k)) == Cut(Numbers(h), k)
      requires passesBefore <= passesMid && noticesBefore <= noticesMid
      requires k == Replaced(passesMid) - Replaced(passesBefore) + Announced(noticesMid) - Announced(noticesBefore)
      requires TookOldest(h, passesBefore, passesMid, k)
      requires Accounts(Numbers(Cut(h, k)), passesMid, noticesMid, more)
      requires if again then TookOldest(Cut(h, k), passesMid, passes, more) && View() == Cut(Cut(h, k), more)
               else passes == passesMid
      requires |messages| > 1 ==> View() == Cut(Cut(h, k), more)
      ensures Accounts(Numbers(h), passesBefore, noticesBefore, total)
      ensures r <= total && TookOldest(h, passesBefore, passes, r)
      ensures again ==> r == total && View() == Cut(h, total)
      ensures |messages| > 1 ==> View() == Cut(h, total)
    {
      total := AddUp(h, passesBefore, noticesBefore, k, Cut(h, k), passesMid, noticesMid, more);
      r := k;
      if again {
        TookMore(h, passesBefore, passesMid, k, passes, more);
        CutsAddUp(h, k, more);
        r := total;
      }
    }

    /** An account in numbers: what is left, what passes replaced and what notices announce. */
    lemma Balance(h: History<Slot>, passesBefore: seq<Pass>, noticesBefore: seq<LossNotice>, k: nat, r: nat)
      requires h.Valid() && Accounts(Numbers(h), passesBefore, noticesBefore, k)
      requires TookOldest(h, passesBefore, passes, r)
      ensures |h.items| == |messages| + (Replaced(passes) - Replaced(passesBefore))
                                      + (Announced(pendingLossNotices) - Announced(noticesBefore))
      ensures r <= k ==> |Oldest(Numbers(h), k)[r..]| == Announced(pendingLossNotices) - Announced(noticesBefore)
    {
      CutsAddUp(Numbers(h), k, 0);
      assert |Ids().items| == |messages|;
    }

    /**
      Summarize until within the target or out of passes, then truncate if the hard
      limit is still exceeded.  Every message that goes is either in a pass or
      counted in a queued notice: the passes took the r oldest in order, the notices
      count the rest of the k that went.  What remains fits or is the pinned request.
     */
    method EnforceLimitsWithSummarization(config: SummarizationConfig, target: Target)
      returns (iterations: nat, ghost k: nat, ghost r: nat)
      requires Valid()
      modifies this`messages, this`pinnedRequest, this`consolidatedSummary, this`rewordings, this`summarizedHashes, this`passes,
               this`pendingLossNotices
      ensures Valid()
      ensures iterations <= config.maxIterations
      ensures Accounts(old(Ids()), old(passes), old(pendingLossNotices), k)
      ensures r <= k && TookOldest(old(View()), old(passes), passes, r)
      ensures |Oldest(old(Ids()), k)[r..]| == Announced(pendingLossNotices) - Announced(old(pendingLossNotices))
      ensures |old(messages)| == |messages| + (Replaced(passes) - Replaced(old(passes)))
                                            + (Announced(pendingLossNotices) - Announced(old(pendingLossNotices)))
      ensures compressionThreshold <= hardLimit || target == HardLimit || config.modelPriority == [] ==> Enforced()
      ensures |messages| > 1 ==> View() == Cut(old(View()), k)
      ensures old(rewordings) <= rewordings
      ensures rewordings == old(rewordings) ==>
                Tells(old(consolidatedSummary), old(passes), consolidatedSummary, passes)
      ensures (compressionThreshold <= hardLimit || target == HardLimit || config.modelPriority == []) && |messages| > 1 ==>
                RequestFits()
    {
      ghost var h, passes0, notices0 := View(), passes, pendingLossNotices;
      iterations, k, r := SummarizeThenTruncate(config, target);
      Balance(h, passes0, notices0, k, r);
    }

    /** The two ways to get there: passes first when there are models, truncation when that is not enough. */
    method SummarizeThenTruncate(config: SummarizationConfig, target: Target)
      returns (iterations: nat, ghost k: nat, ghost r: nat)
      requires Valid()
      modifies this`messages, this`pinnedRequest, this`consolidatedSummary, this`rewordings, this`summarizedHashes, this`passes,
               this`pendingLossNotices
      ensures Valid()
      ensures iterations <= config.maxIterations
      ensures Accounts(old(Ids()), old(passes), old(pendingLossNotices), k)
      ensures r <= k && TookOldest(old(View()), old(passes), passes, r)
      ensures compressionThreshold <= hardLimit || target == HardLimit || config.modelPriority == [] ==> Enforced()
      ensures |messages| > 1 ==> View() == Cut(old(View()), k)
      ensures old(rewordings) <= rewordings
      ensures rewordings == old(rewordings) ==>
                Tells(old(consolidatedSummary), old(passes), consolidatedSummary, passes)
    {
      ghost var h, passes0, notices0 := View(), passes, pendingLossNotices;
      k, r, iterations := 0, 0, 0;
      if config.modelPriority == [] {
        if ExceedsHardLimit() {
          k := TruncateOnTop(h, passes0, notices0, 0, "no summarization models are configured");
        }
        return;
      }
      iterations, k, r := RunPasses(config, target);
      if iterations >= config.maxIterations && ExceedsHardLimit() {
        k := TruncateOnTop(h, passes0, notices0, k, "summarization spent its whole pass budget");
      }
    }

    /** No pass can or may follow and the limit is still exceeded: what else goes is announced on top. */
    method TruncateOnTop(ghost h: History<Slot>, ghost passes0: seq<Pass>, ghost notices0: seq<LossNotice>, ghost k: nat,
                         reason: string)
      returns (ghost total: nat)
      requires Valid() && h.Valid()
      requires Accounts(Numbers(h), passes0, notices0, k)
      requires |messages| > 1 ==> View() == Cut(h, k)
      modifies this`messages, this`pinnedRequest, this`consolidatedSummary, this`rewordings, this`pendingLossNotices
      ensures Valid() && k <= total
      ensures Accounts(Numbers(h), passes0, notices0, total)
      ensures !ExceedsHardLimit() || |messages| <= 1
      ensures |messages| > 1 ==> View() == Cut(h, total)
      ensures old(rewordings) <= rewordings
      ensures rewordings == old(rewordings) ==> consolidatedSummary == old(consolidatedSummary)
    {
      ghost var mid, noticesMid := View(), pendingLossNotices;
      var dropped := TruncateAnnouncing(reason);
      total := AddUp(h, passes0, notices0, k, mid, passes, noticesMid, dropped);
    }

    /** The loop: pass after pass until within the target, out of passes, or a pass gives up. */
    method RunPasses(config: SummarizationConfig, target: Target) returns (iterations: nat, ghost k: nat, ghost r: nat)
      requires Valid()
      modifies this`messages, this`pinnedRequest, this`consolidatedSummary, this`rewordings, this`summarizedHashes, this`passes,
               this`pendingLossNotices
      ensures Valid()
      ensures iterations <= config.maxIterations
      ensures Accounts(old(Ids()), old(passes), old(pendingLossNotices), k)
      ensures r <= k && TookOldest(old(View()), old(passes), passes, r)
      ensures iterations < config.maxIterations ==> !OverTarget(target) || Enforced()
      ensures |messages| > 1 ==> View() == Cut(old(View()), k)
      ensures old(rewordings) <= rewordings
      ensures rewordings == old(rewordings) ==>
                Tells(old(consolidatedSummary), old(passes), consolidatedSummary, passes)
    {
      ghost var h, passes0, notices0 := View(), passes, pendingLossNotices;
      ghost var slot0, rewordings0 := consolidatedSummary, rewordings;
      k, r, iterations := 0, 0, 0;
      var again := true;
      while again && OverTarget(target) && iterations < config.maxIterations
        invariant Valid() && iterations <= config.maxIterations
        invariant Accounts(Numbers(h), passes0, notices0, k)
        invariant r <= k && TookOldest(h, passes0, passes, r)
        invariant again ==> r == k && View() == Cut(h, k)
        invariant |messages| > 1 ==> View() == Cut(h, k)
        invariant !again ==> !OverTarget(target) || Enforced()
        invariant rewordings0 <= rewordings && (rewordings == rewordings0 ==> Tells(slot0, passes0, consolidatedSummary, passes))
        decreases config.maxIterations - iterations
      {
        iterations := iterations + 1;
        ghost var passesMid, noticesMid, slotMid := passes, pendingLossNotices, consolidatedSummary;
        ghost var more;
        again, more := SummarizationPass(config, target, iterations);
        if rewordings == rewordings0 {
          TellsStep(slot0, passes0, slotMid, passesMid, consolidatedSummary, passes);
        }
        k, r := OnePassOn(h, passes0, notices0, k, passesMid, noticesMid, again, more);
      }
    }
  }

  /** A model that answers every chunk with three letters. */
  const TERSE := SummarizationConfig(["terse"], 1, (call, name) => Model(10_000, (i, chunk) => Some("abc")))

  function Terse(parts: seq<string>): string {
    "abc"
  }

  lemma TerseCondenses(call: nat)
    ensures Condenses(Terse, TERSE, call, "a\nb\n", "abc")
  {
    var summary, ends, chunks, parts := "a\nb\n", [2, 4], [("a\nb\n", 4)], ["abc"];
    var attempts := Attempts(TERSE, call);
    assert AreLineEnds(summary, ends);
    assert ChunksOf(summary, ends, 10_000, chunks) by {
      assert TextMatches(summary, chunks, 0);
      assert GreedyCut(ends, 10_000, CutsOf(chunks), 0);
    }
    assert RepliesTo(attempts[0], chunks, parts);
    assert FirstToReadAll(attempts, summary, ends, 0, parts);
  }

  /** One token a character, three and a half characters a token: the ratio of the source. */
  const TERSE_ENV := Env(text => |text|, text => |text|, tokens => 7 * tokens / 2, summary => summary, text => {}, Terse,
                         slots => "")

  /** With no room at all, the notice and the marker alone are longer than the banner and the reading. */
  lemma NoticeIsLongerThanBanner()
    ensures Elide(ELISION_WORDING, RECONDENSED_BANNER + "abc", 0).None?
  {
    var kept := RECONDENSED_BANNER + "abc";
    assert |RECONDENSED_BANNER| < |ELISION_WORDING.noticeTail|;
    ElisionDeclines(ELISION_WORDING, kept, 0);
  }

  /** When elision declines, the condensed summary stays as it is, banner and all. */
  method CompactWithoutElision(context: AgentContext, config: SummarizationConfig, call: nat, ghost summary: string,
                               ghost condensed: string)
    returns (changed: bool)
    requires context.consolidatedSummary == Some(summary) && context.PreambleStarved()
    requires Condenses(context.env.splice, config, call, summary, condensed)
    requires context.ElidedFrom(context.banner + condensed).None?
    modifies context`consolidatedSummary, context`rewordings
    ensures changed && context.consolidatedSummary == Some(context.banner + condensed)
  {
    changed := context.CompactPreamble(config, call);
    forall other | Condenses(context.env.splice, config, call, summary, other) ensures other == condensed {
      CondensingIsUnique(context.env.splice, config, call, summary, condensed, other);
    }
  }

  /** A context holding one request and a summary of four characters, over both its limits. */
  method CrowdedContext() returns (context: AgentContext)
    ensures fresh(context) && context.Valid() && |context.messages| == 1
    ensures context.env == TERSE_ENV && context.banner == RECONDENSED_BANNER && context.wording == ELISION_WORDING
    ensures context.consolidatedSummary == Some("a\nb\n")
    ensures context.PreambleStarved() && context.PreambleRoomTarget() == 0
    ensures context.OverTarget(HardLimit) && context.OverTarget(CompressionThreshold)
  {
    context := new AgentContext(TERSE_ENV, 100, 4, 4);
    context.PushMessage(Message("user", [Text("request")]));
    context.consolidatedSummary := Some("a\nb\n");
    OneTextTokens(context.env, context.messages);
  }

  lemma OneTextTokens(env: Env, slots: seq<Slot>)
    requires |slots| == 1 && |slots[0].message.content| == 1 && slots[0].message.content[0].Text?
    ensures BlocksTokens(env, slots[0].message.content) == env.tokens(slots[0].message.content[0].text)
    ensures SlotsTokens(env, slots) >= env.tokens(slots[0].message.content[0].text)
  {
  }

  /**
    "Returns whether the preamble got smaller" fails here: in a context over its
    target, where the loop calls it, the summary of four characters is condensed to
    three, and what is kept is longer by the banner.
   */
  method CondensingCanLengthen() returns (context: AgentContext, overTarget: bool, changed: bool)
    ensures fresh(context) && overTarget && changed
    ensures context.consolidatedSummary.Some? && |"a\nb\n"| < |context.consolidatedSummary.value|
  {
    context := CrowdedContext();
    overTarget := context.OverTarget(HardLimit) && context.OverTarget(CompressionThreshold);
    TerseCondenses(0);
    NoticeIsLongerThanBanner();
    assert context.ElidedFrom(context.banner + "abc").None?;
    changed := CompactWithoutElision(context, TERSE, 0, "a\nb\n", "abc");
  }
}
