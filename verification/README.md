# The agent crate's context, planner, scheduler and guards

This project models the parts of the agent crate (and one file of the channels
crate) whose correctness is not visible in any single function, and proves what
they promise for every input, every run and every interleaving.

* **The context-compression ladder** (`History`, `Runs`, `Messages`, `Utf8`, `Preamble`,
  `BlockTruncation`, `Chunking`, `Extraction`, `Summarizing`, `AgentContext`).
  A context is a message list with a pinned live request, a summary slot, queued
  loss notices and two limits. `History` defines one operation: a *cut* removes
  the k oldest messages that are not pinned. Every shrinking path of the class
  keeps the source's own loops and index arithmetic and is proved to be a cut, and
  a cut is proved to be the only list with the properties that matter. Messages
  carry their arrival number, so "the same message" is a statement about identity
  and not about position. The enforcement loop is proved to account for every
  message it takes away and to end within the hard limit, whatever the models do.
* **The request builder** (`Requests`): deduplication, preamble, orphan repair and
  sanitizing; what is sent always satisfies what providers demand.
* **The planner's JSON scanner** (`JsonGrammar`, `JsonScanner`): the byte automaton
  against the grammar of sections 2 to 7 of RFC 8259.
* **Dependency levelling** (`Levels`): the iterative loop against longest chains,
  cycles and missing ids.
* **The cancellation token** (`CancelToken`): any number of waiters and cancellers
  as interleaved steps.
* **The webhook fence** (`Fence`, `Webhook`), **the health machine** (`Health`), **the agent
  registry** (`Registry` for whole calls, `RegistrySteps` for interleaved lock
  scopes, `LockOrder` for who waits for whom), **budget shares in floating point** (`Budget`), **line elision**
  (`Lines`) and **sentence selection** (`Selection`).

Conventions. Text is a sequence of UTF-8 code units, as the source measures and
slices it. `usize` is unbounded. Models, token estimators, content hashes and
wording are parameters: a model is an arbitrary function from call and chunk to a
reply or a failure, an estimator an arbitrary function to a natural number. Sorts
and retains of the standard library are written out.

Where code and documentation disagree, the code is modelled:

* `pin_live_request` marks "the message just pushed" only if the message cap is at
  least 2 or the list was empty (`Runs.AddThenPinPinsTheNewMessage`).
* `repair_orphan_tool_results` says that every cut removes a prefix and leaves at
  most one message with orphans, the leading one. Cuts go around the pinned message.
  Both halves have a failing history (`Requests.OrphanBehindTheRequest`,
  `Requests.TwoMessagesWithOrphans`) and an exact condition on the history before
  the cut (`Requests.OrphansLeadExactlyWhen`, `Requests.OneMessageExactlyWhen`).
* `compact_preamble` says it returns whether the preamble got smaller. Its length
  test leaves out the banner it adds: `AgentContexts.CondensingCanLengthen` is a
  context in which the slot grows, and `CompactPreamble` gives the exact condition.
* `message_budget` says the gate on messages and the gate on the request are the same
  inequality. They differ when there are no message tokens and the preamble alone
  exceeds the limit (`AgentContext.SameInequalityExactlyWhen`).
* `allocate_budget` says it reserves 20%. The bonuses are handed out on top of the
  other 80%; `Budget.ReserveKeptExactlyWhen` gives the exact condition, and two
  closed forms bracket it.

One thing the documentation does not mention: `cleanup` takes its locks in the
opposite order from the queries, so that the two can wait for each other for good.
`LockOrder.StuckExactlyWhen` says when.

## Model

| member | source | states |
|---|---|---|
| `History.OldestRemovable` | crates/nanna-agent/src/context.rs:1572-1576 | The index found is removable (not pinned, not in the kept tail) and no smaller index is; none is found only if none exists. |
| `History.Victims` | crates/nanna-agent/src/context.rs:2254-2259 | The indices collected are below the cutoff and not the pin; any other such index left out is newer than all of them, and only when the limit is reached. |
| `History.SomethingIsRemovable` | crates/nanna-agent/src/context.rs:1529-1547 | While more than the tail and the pinned message remain, a removal loop always finds a victim, so its `break` is never taken. |
| `History.RemoveFromTheFront` | crates/nanna-agent/src/context.rs:1529-1547 | Removing the oldest removable entry, pin shift included, turns the cut of k entries into the cut of k + 1. |
| `History.FrontStep` | crates/nanna-agent/src/context.rs:1529-1547 | One turn of a removal loop: there is a victim, it is not the pinned message, and taking it deepens the cut by one. |
| `History.RemoveFromTheBack` | crates/nanna-agent/src/context.rs:2302-2306 | Removing the collected victims from the newest down to the oldest, pin shift included, ends in the same cut although every removal renumbers what follows. |
| `History.CutShape` | crates/nanna-agent/src/context.rs:467-483 | A cut keeps the pin valid, says where it moved, and keeps exactly the surviving entries. |
| `History.CutCompose` | crates/nanna-agent/src/context.rs:1513-1567 | Two cuts in a row are one cut by the sum. |
| `History.CutsAddUp` | crates/nanna-agent/src/context.rs:1711-1835 | The same for cuts bounded by "all but the pinned message", with the sizes. |
| `History.OldestAddUp` | crates/nanna-agent/src/context.rs:1711-1835 | What two cuts in a row take is, in order, what the one cut takes. |
| `History.CutConserves` | crates/nanna-agent/src/context.rs:1569-1588 | Conservation: as multisets, the messages are the ones kept together with the ones taken. |
| `History.CutKeepsPinAndOrder` | crates/nanna-agent/src/context.rs:467-483 | A cut keeps the pinned message, keeps arrival order, invents nothing, and loses only messages older than every unpinned one it keeps. |
| `History.CutIsUnique` | crates/nanna-agent/src/context.rs:1569-1588 | The converse: a shorter list with those properties is the cut. The index arithmetic therefore has one right answer. |
| `Runs.StepKeeps` | crates/nanna-agent/src/context.rs:1447-1457 | Each operation, the push that bypasses the cap included, keeps the pin valid and arrivals numbered; all but pin keep the pinned message. |
| `Runs.RunKeepsTheLiveRequest` | crates/nanna-agent/src/context.rs:457-483 | Over any sequence of capped adds, direct pushes and shrinking operations without a new pin, of any length, above or below the message cap, the pin names the very message it was set on, that message survives, and survivors stay in arrival order. |
| `Runs.AddThenPinPinsTheNewMessage` | crates/nanna-agent/src/context.rs:457-459 | Pinning after an add marks the message just pushed if and only if the cap is at least 2 or the list was empty; under a cap of 0 or 1 it marks the old one. |
| `Runs.StepKeepsCap` | crates/nanna-agent/src/context.rs:2671-2678 | An add leaves one message more while the cap is not reached, and else exactly as many as the cap, or the pinned one under a cap of 0; nothing but an arrival makes the list longer. |
| `Runs.CapHoldsAfterAdd` | crates/nanna-agent/src/context.rs:1447-1457 | After any run whose last arrival came through an add, the cap is met. |
| `Chunking.SplitAscends` | crates/nanna-agent/src/context.rs:1996-2028 | The cut points of a lawful split strictly ascend. |
| `Chunking.GreedyStaysAhead` | crates/nanna-agent/src/context.rs:1996-2028 | After the same number of pieces the greedy split has never covered less than any other lawful split. |
| `Chunking.GreedyIsOptimal` | crates/nanna-agent/src/context.rs:1996-2028 | No split at message ends, with pieces within budget or holding one message, has fewer pieces than the greedy one. |
| `Chunking.ChunksRebuild` | crates/nanna-agent/src/context.rs:1985-1995 | The chunks put together are exactly the content up to the last cut. |
| `Chunking.ChunkAtMessageBoundaries` | crates/nanna-agent/src/context.rs:1996-2028 | Chunks are verbatim, consecutive, cut only at message ends, rebuild the covered content exactly, are lawful for the budget given (a budget of 0 counting as 1), and are as few as any lawful split. Repeated and zero offsets are included. |
| `Extraction.Extract` | crates/nanna-agent/src/context.rs:1933-1983 | Skipping the pinned message, whole messages are gathered oldest first; the i-th end is the rendered length of the first i + 1 removable messages; what follows the last end is the readable part of one message that no longer fitted. |
| `Extraction.ExtractMessage` | crates/nanna-agent/src/context.rs:1950-1980 | Blocks are appended until one does not fit; the result says which one, and a first block too long for the whole budget is given in part. |
| `Extraction.ExtractionGivesBoundaries` | crates/nanna-agent/src/context.rs:1933-1983 | What extraction records is what chunking demands: ascending offsets into the content, ending at the rendering of the whole messages. |
| `Extraction.CoveredCount` | crates/nanna-agent/src/context.rs:1856-1857 | Counts exactly the leading ends that were consumed: each is within what was read, and the next one is not. |
| `Extraction.AllCovered` | crates/nanna-agent/src/context.rs:1856-1857 | Once everything up to the last end was read, every recorded message counts as covered. |
| `Extraction.PassesAgree` | crates/nanna-agent/src/context.rs:1925-1932 | Extraction, chunking and replacement agree: a reading that consumed the last end covers exactly the recorded messages, at least one, and replacement has exactly that many victims, so neither the "covered 0" nor the "removed 0" refusal can follow it. |
| `Extraction.AllButTwoAreOffered` | crates/nanna-agent/src/context.rs:1937-1949 | Exactly the messages that are neither among the last two nor pinned are offered, oldest first. |
| `Extraction.StubIsLongestBeginning` | crates/nanna-agent/src/context.rs:1964-1970 | A stub is the longest beginning on a boundary within the budget, and is given only when nothing else was. |
| `Extraction.CoveredIsVerbatim` | crates/nanna-agent/src/context.rs:1946-1980 | What the summarizer is handed holds every text and result of every covered message word for word. |
| `Summarizing.ChunksAreUnique` | crates/nanna-agent/src/context.rs:1996-2028 | There is only one greedy chunking of a content. |
| `Summarizing.ReadingIsUnique` | crates/nanna-agent/src/context.rs:2062-2123 | The winning candidate and its parts are determined by the attempts. |
| `Summarizing.SummarizeChunks` | crates/nanna-agent/src/context.rs:2085-2119 | Succeeds exactly when the candidate answers every chunk, and has then consumed the last covered end. |
| `Summarizing.SummarizeContentWithFallback` | crates/nanna-agent/src/context.rs:2062-2123 | Returns the splice of the first candidate that reads everything; fails only if no candidate does. |
| `Preamble.KeptEndsDoNotOverlap` | crates/nanna-agent/src/context.rs:992-1012 | Head and tail each take at most half of the allowance, fall on character boundaries and do not overlap. |
| `Preamble.ElisionIsFaithful` | crates/nanna-agent/src/context.rs:973-1038 | An elision is strictly shorter; it is notice, prefix, marker, suffix; the number in the notice is exactly what is missing; it fits the allowance if that covers the reserve and the number has at most nine digits. |
| `Preamble.NoticeTellsTheCount` | crates/nanna-agent/src/context.rs:1012-1018 | The notice opens with digits that read back as the number of elided characters. |
| `Preamble.ReserveIsExact` | crates/nanna-agent/src/context.rs:992-996 | The reserve is exactly a notice with a nine-digit count, and the marker. |
| `Preamble.KeptEndsAreLongest` | crates/nanna-agent/src/context.rs:997-1011 | The kept ends are the longest there is room for beside notice and marker. |
| `Utf8.FloorBoundary` | crates/nanna-agent/src/context.rs:999-999 | A boundary at or before the index; `NearestBoundaries` adds that none lies between. |
| `Utf8.NearestBoundaries` | crates/nanna-agent/src/compressor.rs:576-586 | The boundary found below an index is the last one, the one found above is the first. |
| `Utf8.DecimalLength` | crates/nanna-agent/src/context.rs:992-996 | A count below the d-th power of ten prints in at most d digits, which is what the notice reserve relies on. |
| `Utf8.DecimalReadsBack` | crates/nanna-agent/src/context.rs:1013-1018 | A printed count is digits only and reads back as the count. |
| `Messages.BlocksTokensAdd` | crates/nanna-agent/src/context.rs:66-79 | The cost of blocks is additive: each is counted once. |
| `Messages.SlotsTokensAdd` | crates/nanna-agent/src/context.rs:1468-1474 | The cost of messages is additive: each is counted once. |
| `Messages.OneBlockCosts` | crates/nanna-agent/src/context.rs:66-79 | What a message of one block costs: the tokens of its text, and the frame of a call, a result or an image. |
| `Messages.EveryMessageIsCounted` | crates/nanna-agent/src/context.rs:1468-1474 | Every message of a list is paid for in the cost of the list. |
| `Messages.RenderHolds` | crates/nanna-agent/src/context.rs:1946-1980 | Every line of every message stands in the rendering. |
| `Messages.TranscriptReadsWhole` | crates/nanna-agent/src/context.rs:1951-1973 | Texts and results are read whole, word for word, behind the role. |
| `Messages.CallIsRead` | crates/nanna-agent/src/context.rs:1953-1955 | A call is read with its name and its input. |
| `Messages.ThoughtIsRead` | crates/nanna-agent/src/context.rs:1957-1960 | A thought is read up to the last boundary within two hundred bytes. |
| `Messages.RawLengthIsBareLength` | crates/nanna-agent/src/context.rs:1964-1974 | What extraction charges to its budget is the length of all texts without their frames. |
| `BlockTruncation.TruncateBlocks` | crates/nanna-agent/src/context.rs:1596-1652 | Every text and tool result over the cap becomes its longest prefix at a character boundary plus a count of the rest; identity, order, roles and block kinds stay. |
| `BlockTruncation.CappedText` | crates/nanna-agent/src/context.rs:1618-1633 | A text within the cap stays; a longer one keeps its longest prefix on a boundary within the cap, and the mark counts the rest. |
| `BlockTruncation.CappedBlock` | crates/nanna-agent/src/context.rs:1615-1650 | Only the words of texts and results change; ids, error flags and all other blocks stay. |
| `BlockTruncation.OversizedInAdd` | crates/nanna-agent/src/context.rs:1604-1613 | Oversized blocks are counted once each. |
| `BlockTruncation.OneOversized` | crates/nanna-agent/src/context.rs:1604-1613 | A block is oversized when it is a text or a result of more than a hundred bytes. |
| `BlockTruncation.SharesFitTheBudget` | crates/nanna-agent/src/context.rs:1600-1614 | All oversized blocks at their share stay within the budget and no larger share would; below a hundred bytes the floor holds. |
| `AgentContexts.AgentContext.constructor` | crates/nanna-agent/src/context.rs:425-449 | A fresh context holds nothing and pins nothing. |
| `AgentContexts.AgentContext.SameInequalityExactlyWhen` | crates/nanna-agent/src/context.rs:895-908 | The documented "same inequality" of the message gate and the request gate holds unless there are no message tokens and the preamble alone exceeds the limit. |
| `AgentContexts.AgentContext.GentlerGateFirst` | crates/nanna-agent/src/context.rs:898-902 | With the threshold not above the hard limit, whoever exceeds the limit needs compression. |
| `AgentContexts.AgentContext.RoomAddsUp` | crates/nanna-agent/src/context.rs:935-955 | The preamble is not starved exactly when it, the prompt, the pinned message and one step's growth fit the hard limit together. |
| `AgentContexts.AgentContext.AllowanceIsWhatIsLeft` | crates/nanna-agent/src/context.rs:980-986 | Elision works to the characters of what is left beside prompt, pinned message, growth and the rest of the preamble. |
| `AgentContexts.AgentContext.PinLiveRequest` | crates/nanna-agent/src/context.rs:457-459 | The new state is the specification's pin step. |
| `AgentContexts.AgentContext.AddMessage` | crates/nanna-agent/src/context.rs:1447-1457 | The new state is the old one with the message pushed, cut to the cap, and on identities one step of the runs above; in numbers, one message more below the cap, and else as many as the cap, or one. |
| `AgentContexts.AgentContext.PushMessage` | crates/nanna-agent/src/loop_runner.rs:8740-8743 | A push straight onto the public list: no cap, and one step of the runs above. |
| `AgentContexts.AgentContext.RemoveMessage` | crates/nanna-agent/src/context.rs:1579-1588 | One entry goes, an explicit pin behind it moves down, an index past the end changes nothing. |
| `AgentContexts.AgentContext.TrimIfNeeded` | crates/nanna-agent/src/context.rs:2671-2678 | The whole loop is one cut; afterwards there are as many messages as before if that is within the cap, else as many as the cap, or the pinned message alone. |
| `AgentContexts.AgentContext.ElidedSummary` | crates/nanna-agent/src/context.rs:973-1038 | What elision leaves of the summary slot, when it leaves something, is strictly shorter. |
| `AgentContexts.AgentContext.ElidesExactlyWhen` | crates/nanna-agent/src/context.rs:973-1028 | Elision happens exactly when the preamble starves the messages, the summary is over the allowance, and notice, kept ends and marker are shorter than it. |
| `AgentContexts.AgentContext.ElidePreambleToFit` | crates/nanna-agent/src/context.rs:973-1038 | True exactly when the preamble starves the messages and elision pays; the slot is then the faithful elision and strictly shorter, and is untouched otherwise. |
| `AgentContexts.AgentContext.RemoveOldestWhileOver` | crates/nanna-agent/src/context.rs:1529-1547 | One removal loop is a cut, every shorter cut was still over budget, and it stops over budget only when the kept tail is all that is left. |
| `AgentContexts.AgentContext.RemoveUntilUnder` | crates/nanna-agent/src/context.rs:1529-1547 | The two loops with their different tail reserves together cut the least number of messages that fits, or all but the pinned one. |
| `AgentContexts.TwoPhases` | crates/nanna-agent/src/context.rs:1529-1547 | Why the two loops are one: every shorter cut than their sum was over budget. |
| `AgentContexts.AgentContext.TruncateToLimit` | crates/nanna-agent/src/context.rs:1513-1567 | The k oldest unpinned messages go for the least k whose remainder fits the preamble-deducted budget, or all but the pinned one if none fits, and only then each block is cut to its share of the budget; with more than one message left, prompt, messages and preamble together are within the hard limit; the summary slot is the elided one if elision was due. |
| `AgentContexts.TruncationShape` | crates/nanna-agent/src/context.rs:1513-1567 | Shrinking blocks in place changes no identity, no order and no count. |
| `AgentContexts.AgentContext.ShrinkWhatIsLeft` | crates/nanna-agent/src/context.rs:1549-1554 | Only if the context is still over, every block is cut to an equal share of the budget, never under the floor; nothing moves. |
| `AgentContexts.AgentContext.TruncateLargeContentBlocks` | crates/nanna-agent/src/context.rs:1596-1652 | The cap is an equal share of the budget per oversized block, never under the floor; identities stay. |
| `AgentContexts.CapsFitTheRoom` | crates/nanna-agent/src/context.rs:1600-1614 | All oversized blocks at their share take no more than what the prompt leaves of the message budget, and no larger share would do. |
| `AgentContexts.AgentContext.RemoveVictims` | crates/nanna-agent/src/context.rs:2302-2306 | Removing the collected indices from the back is one cut of as many. |
| `AgentContexts.AgentContext.DropOldest` | crates/nanna-agent/src/context.rs:2331-2407 | One cut of everything unpinned before the recent tail; nothing if the list is within the tail plus one; the note in the summary slot is computed from exactly the messages that go. |
| `AgentContexts.SplitIsCut` | crates/nanna-agent/src/context.rs:2635-2647 | Rebuilding the list as "pinned message, then the recent part", with its own pin arithmetic, is the same cut. |
| `AgentContexts.AgentContext.KeepPinnedAndRecent` | crates/nanna-agent/src/context.rs:2635-2647 | The rebuilt list and pin are one cut of the counted messages. |
| `AgentContexts.AgentContext.Compress` | crates/nanna-agent/src/context.rs:2562-2657 | Fails exactly when a reply was needed and did not come, then changing nothing; otherwise cuts the old unpinned part and puts the reply behind the summary that was there. |
| `AgentContexts.AgentContext.ExtractContentForSummarization` | crates/nanna-agent/src/context.rs:1933-1983 | Extraction of the removable messages below the cutoff that spares the live query and the reply in progress. |
| `AgentContexts.AgentContext.PushSummarizationFailureNotice` | crates/nanna-agent/src/context.rs:741-747 | Queues one notice, or none for nothing dropped; the announced total grows by exactly the number dropped. |
| `AgentContexts.AgentContext.ReplaceWithSummary` | crates/nanna-agent/src/context.rs:2247-2323 | Removes exactly the first removable messages that extraction listed, oldest first, pin intact, never one of the last two; the old summary stays in front, the new one stands last, with the number of messages between them; nothing changes when there is none. |
| `AgentContexts.RemovableAreOldest` | crates/nanna-agent/src/context.rs:2254-2259 | What extraction walks and replacement collects are the oldest unpinned messages, in the same order. |
| `AgentContexts.AppendingAppends` | crates/nanna-agent/src/context.rs:2289-2298 | The old summary first, the new one last, the number of messages in digits between them. |
| `AgentContexts.AppendedKeepsBoth` | crates/nanna-agent/src/context.rs:2289-2298 | Neither summary loses anything, and they do not overlap. |
| `AgentContexts.DroppingAppends` | crates/nanna-agent/src/context.rs:2376-2388 | A drop note stands behind whatever was there. |
| `AgentContexts.TellsStep` | crates/nanna-agent/src/context.rs:2289-2298 | Pass after pass, the slot tells what it told before and then one more summary. |
| `AgentContexts.LargeTextsAreHashed` | crates/nanna-agent/src/context.rs:2264-2287 | Every replaced text or result of 4000 bytes or more leaves all its hashes behind. |
| `AgentContexts.HashesComeFromLargeTexts` | crates/nanna-agent/src/context.rs:2264-2287 | And no hash comes from anywhere else. |
| `AgentContexts.LastTwoStay` | crates/nanna-agent/src/context.rs:2248-2253 | A pass leaves the last two messages where they are. |
| `AgentContexts.AgentContext.ApplyPassSummary` | crates/nanna-agent/src/context.rs:1844-1915 | True if and only if something was replaced; then exactly the covered messages went into the pass and nothing is announced, otherwise no pass is recorded and what went is announced. |
| `AgentContexts.AgentContext.TruncateAnnouncing` | crates/nanna-agent/src/context.rs:1716-1728 | A truncation and its notice account for each other exactly. |
| `AgentContexts.AgentContext.CompactPreamble` | crates/nanna-agent/src/context.rs:1049-1104 | Changes the slot if and only if it starves the messages and a shorter reading or an elision exists; the reading wins. A change makes the slot shorter if and only if every reading pays: the banner costs less than was saved, or the elision that follows ends below the old length. |
| `AgentContexts.AgentContext.PaysExactlyWhenShorter` | crates/nanna-agent/src/context.rs:1078-1091 | The condition as a test on lengths: banner and reading against the old summary, or notice, kept ends and marker against it. |
| `AgentContexts.CondensingCanLengthen` | crates/nanna-agent/src/context.rs:1078-1082 | "Returns whether the preamble got smaller" fails: a context over both its targets, at the source's own ratio of characters to tokens, in which the call reports a change and the slot is longer. |
| `AgentContexts.NoticeIsLongerThanBanner` | crates/nanna-agent/src/context.rs:985-1028 | Why elision does not undo it there: with no room, the actual notice and marker cost more than banner and reading. |
| `AgentContexts.Condense` | crates/nanna-agent/src/context.rs:1056-1080 | Finds a shorter reading of the whole summary exactly when there is one, and there is at most one. |
| `AgentContexts.CondensedIsTheReading` | crates/nanna-agent/src/context.rs:1065-1079 | Whatever way the line ends are found, a condensing is the winning reading at those ends. |
| `AgentContexts.WhenNothingCondenses` | crates/nanna-agent/src/context.rs:1059-1103 | Condensing happens if and only if there are two cut points, a candidate reads everything, and the result is shorter. |
| `AgentContexts.LineEnds` | crates/nanna-agent/src/context.rs:1065-1072 | Contains every line end and the end of the text, nothing else, in order. |
| `AgentContexts.StretchesAddUp` | crates/nanna-agent/src/context.rs:1711-1835 | Two stretches of enforcement, each a cut, make one. |
| `AgentContexts.TookMore` | crates/nanna-agent/src/context.rs:1711-1835 | Passes in a row take the oldest messages in order. |
| `AgentContexts.AgentContext.AddUp` | crates/nanna-agent/src/context.rs:1711-1835 | Accounts over two stretches add up: passes and notices together cover both cuts. |
| `AgentContexts.AgentContext.SummarizeOldest` | crates/nanna-agent/src/context.rs:1774-1816 | If a candidate read the extraction, the list gets strictly shorter and the pass holds exactly the oldest unpinned messages; if not, the context ends within the hard limit or with one message; either way the account is exact. |
| `AgentContexts.AgentContext.SummarizationPass` | crates/nanna-agent/src/context.rs:1765-1816 | Another pass may follow only if the list got shorter; a pass that gives up leaves the target met or the limit enforced. |
| `AgentContexts.AgentContext.OnePassOn` | crates/nanna-agent/src/context.rs:1730-1817 | What one more pass does to the account of the loop. |
| `AgentContexts.AgentContext.RunPasses` | crates/nanna-agent/src/context.rs:1730-1817 | The loop ends with the target met, the limit enforced, or its passes spent, and its accounts are exact. |
| `AgentContexts.AgentContext.EnforceLimitsWithSummarization` | crates/nanna-agent/src/context.rs:1711-1835 | Conservation: of the k messages that went, the passes hold, unchanged and in order, exactly the r oldest unpinned ones, and the notices count exactly the rest. Unless the summary was elided or condensed on the way, the slot holds what it held and then every new pass's summary in order. With the threshold not above the hard limit the whole request fits or at most the pinned message is left, whatever the models answer. |
| `AgentContexts.AgentContext.Balance` | crates/nanna-agent/src/context.rs:1711-1835 | From the account to the numbers: kept, replaced and announced messages add up. |
| `Requests.OrphanPositions` | crates/nanna-agent/src/context.rs:535-556 | Lists exactly the tool results with no earlier call in the request, each once. |
| `Requests.Repaired` | crates/nanna-agent/src/context.rs:562-583 | An orphan becomes text that ends in its output verbatim. |
| `Requests.RepairOrphanToolResults` | crates/nanna-agent/src/context.rs:534-590 | Orphans are rewritten and every other block is what and where it was. |
| `Requests.RepairPairsEverything` | crates/nanna-agent/src/context.rs:520-533 | After repair each tool result has an earlier call; a request without orphans is returned unchanged. |
| `Requests.RepairIsIdempotent` | crates/nanna-agent/src/context.rs:534-590 | Repairing twice is repairing once. |
| `Requests.SanitizedIsSendable` | crates/nanna-agent/src/context.rs:754-773 | Dropping empty texts breaks no pairing and leaves no empty message and no empty text. |
| `Requests.KeptIsTheRest` | crates/nanna-agent/src/context.rs:760-764 | Dropping empty texts keeps every other block, in order and as often. |
| `Requests.SanitizedKeepsTheRest` | crates/nanna-agent/src/context.rs:756-773 | Roles and message count stay; a message without empty texts is untouched; one of nothing but empty texts becomes the stand-in. |
| `Requests.SendableIsUntouched` | crates/nanna-agent/src/context.rs:493-590 | What could be sent already is sent as it is. |
| `Requests.RepairTellsTheVerdict` | crates/nanna-agent/src/context.rs:570-582 | The verdict before an orphan's output is a failure only if the result says so. |
| `Requests.DedupStandsIn` | crates/nanna-agent/src/context.rs:779-866 | Deduplication swaps the words of covered texts and results of 4000 bytes or more for a note, keeping ids and flags, and changes nothing else. |
| `Requests.MessagesForRequest` | crates/nanna-agent/src/context.rs:493-518 | Whatever the history, the summary and the hashes are, the request is sendable; message by message it keeps everything but empty texts; a sendable history without preamble and deduplication is sent unchanged. |
| `Requests.CutMakesTheOrphan` | crates/nanna-agent/src/context.rs:523-527 | In a history whose every result has its call, an orphan after a cut lost its call to that cut. |
| `Requests.OrphansFollowTheGap` | crates/nanna-agent/src/context.rs:523-527 | When results follow their calls at once, orphans stand first or right behind a pinned message that was left first. |
| `Requests.WhereOrphansAre` | crates/nanna-agent/src/context.rs:523-527 | Which messages hold orphans after a cut, for every history that answers calls at once, told by the history before the cut. |
| `Requests.OrphansLeadExactlyWhen` | crates/nanna-agent/src/context.rs:523-525 | "A leading result" fails if and only if the pinned message is left first and the message behind it lost its call. |
| `Requests.OrphanBehindTheRequest` | crates/nanna-agent/src/context.rs:523-525 | It does fail: cutting the call of a request, call and answer leaves the orphan in the second message. |
| `Requests.OneMessageHoldsTheOrphans` | crates/nanna-agent/src/context.rs:525-526 | When the pinned message holds no result, which message holds the orphans. |
| `Requests.OneMessageExactlyWhen` | crates/nanna-agent/src/context.rs:525-526 | The one-message bound fails if and only if the pinned message is left first, holds a result whose call is not in it, and the next one holds a result whose call is in neither. |
| `Requests.TwoMessagesWithOrphans` | crates/nanna-agent/src/context.rs:525-526 | It does fail: two calls and their answers, pinned at the first answer. |
| `JsonScanner.ValueIsTransparent` | crates/nanna-agent/src/planner.rs:335-361 | Every JSON value, nested and with any strings in it, leaves the scan state as it was. |
| `JsonScanner.CharsStayInside` | crates/nanna-agent/src/planner.rs:339-348 | Inside a string literal every character is stepped over, escaped quotes and backslashes included. |
| `JsonScanner.BodyIsTransparent` | crates/nanna-agent/src/planner.rs:335-361 | What stands between the outer brackets never ends the scan. |
| `JsonScanner.NeverUnderflows` | crates/nanna-agent/src/planner.rs:352-354 | From the opening bracket on the depth is at least one until the scan ends. |
| `JsonScanner.EndIsUnique` | crates/nanna-agent/src/planner.rs:354-357 | A scan ends at most once. |
| `JsonScanner.ExtractedOnce` | crates/nanna-agent/src/planner.rs:329-363 | At most one text is extracted. |
| `JsonScanner.ExtractJson` | crates/nanna-agent/src/planner.rs:329-363 | Returns the span from the first bracket to the end of its scan, and nothing exactly when there is no such span; slices fall on character boundaries. |
| `JsonScanner.ExtractsExactlyTheJson` | crates/nanna-agent/src/planner.rs:324-363 | For every JSON array or object, every bracket-free text before it and any text after it, exactly the JSON is extracted. |
| `JsonGrammar.AStringIsWritten` | crates/nanna-agent/src/planner.rs:324-363 | What the grammar writes for a string with a bracket, an escaped quotation mark and a code point. |
| `JsonGrammar.NumbersAreWritten` | crates/nanna-agent/src/planner.rs:324-363 | What it writes for numbers. |
| `JsonGrammar.ItemsAreWritten` | crates/nanna-agent/src/planner.rs:324-363 | Items stand between square brackets with commas between them, blanks included. |
| `JsonGrammar.MembersAreWritten` | crates/nanna-agent/src/planner.rs:324-363 | Members stand between braces, each with its name, a colon and its value. |
| `Levels.RetainWaiting` | crates/nanna-agent/src/multi.rs:967-975 | One `retain`: the ready ids become the level, the waiting tasks stay in order. |
| `Levels.BuildExecutionLevels` | crates/nanna-agent/src/multi.rs:958-995 | The loop terminates, equals the recursive plan, and emits the ids as a permutation of the input. |
| `Levels.LevelsArePermutation` | crates/nanna-agent/src/multi.rs:958-995 | Every id comes out exactly as often as it went in, cycles and missing ids included. |
| `Levels.LevelsAreEarliest` | crates/nanna-agent/src/multi.rs:962-991 | Every level is wholly runnable after the ones before and no task in it was runnable a level earlier, or it is the last one and no task in it is runnable. |
| `Levels.LevelsKeepOrder` | crates/nanna-agent/src/multi.rs:967-982 | Inside a level the tasks stand in the order they were given. |
| `Levels.EveryTaskHasALevel` | crates/nanna-agent/src/multi.rs:958-995 | Every task is in some level. |
| `Levels.LevelIsLongestChain` | crates/nanna-agent/src/multi.rs:958-995 | With unique ids, a runnable task sits in the level numbered by its longest dependency chain. |
| `Levels.ForcedExactlyOnTrouble` | crates/nanna-agent/src/multi.rs:977-983 | With unique ids, a level is forced if and only if some task reaches a missing id or a cycle. |
| `Levels.ForcedExactlyOnStuckSet` | crates/nanna-agent/src/multi.rs:977-983 | For all inputs, a level is forced if and only if some set of tasks waits only for itself or for ids nobody carries. |
| `Levels.DuplicateIdsBreakTheCycle` | crates/nanna-agent/src/multi.rs:977-983 | Without unique ids a cycle need not force a level: a concrete input. |
| `CancelToken.StepKeepsInv` | crates/nanna-agent/src/cancel.rs:44-73 | Every step of every party keeps the invariant and never clears the flag. |
| `CancelToken.RunKeepsInv` | crates/nanna-agent/src/cancel.rs:44-73 | So does every interleaving of any number of waiters and cancellers. |
| `CancelToken.NoLostWakeup` | crates/nanna-agent/src/cancel.rs:57-73 | No reachable state has the flag set, no notification outstanding, and a waiter parked without a wakeup. |
| `CancelToken.WaitersReturnInThreeSteps` | crates/nanna-agent/src/cancel.rs:62-73 | Once the flag is set, a waiter returns with its third own step at the latest, whatever the others do. |
| `CancelToken.CancelledWaitersCanMove` | crates/nanna-agent/src/cancel.rs:62-73 | Once the flag is set, a waiter that cannot move is owed a notification by a canceller that can. |
| `CancelToken.CancelTakesTwoSteps` | crates/nanna-agent/src/cancel.rs:44-51 | A cancel takes two steps of its own that nobody can hold up; it sets the flag and wakes whoever is registered, and nobody else. |
| `CancelToken.ParkedStaysParked` | crates/nanna-agent/src/cancel.rs:62-73 | A parked waiter moves for a notification only. |
| `CancelToken.NobodyReturnsUncancelled` | crates/nanna-agent/src/cancel.rs:58-73 | Without a cancel the flag stays down and nobody returns. |
| `Fence.MatchIndices` | crates/nanna-channels/src/untrusted.rs:47-52 | The list of leftmost, non-overlapping matches in any letter case. |
| `Fence.LowerIsSmall` | crates/nanna-channels/src/untrusted.rs:47-49 | Lowering turns each of the 26 large letters into its small one, letter by letter of the alphabet. |
| `Fence.LowerLeavesTheRest` | crates/nanna-channels/src/untrusted.rs:47-49 | Lowering changes a character if and only if it is a large letter. |
| `Fence.MatchIsFence` | crates/nanna-channels/src/untrusted.rs:47-52 | A match is the closing fence with each letter large or small, whatever lowering does. |
| `Fence.CopyAndEscape` | crates/nanna-channels/src/untrusted.rs:52-57 | The loop writes the text with every listed match replaced and the rest verbatim. |
| `Fence.NeutralizeFence` | crates/nanna-channels/src/untrusted.rs:46-67 | No closing fence in any mixture of large and small letters is left, every match was one, and one byte is added per match. |
| `Fence.SeamsHold` | crates/nanna-channels/src/untrusted.rs:52-57 | No match straddles copied and inserted text. |
| `Fence.NothingSurvives` | crates/nanna-channels/src/untrusted.rs:46-67 | No closing fence survives any escaping. |
| `Fence.OneByteEach` | crates/nanna-channels/src/untrusted.rs:46-67 | Each replacement adds exactly one byte. |
| `Fence.EscapingIsVerbatim` | crates/nanna-channels/src/untrusted.rs:52-57 | Every byte outside the matches is kept, moved on by one for each match before it; every match becomes the escaped form. |
| `Fence.EscapingIsIdempotent` | crates/nanna-channels/src/untrusted.rs:46-67 | Escaping an escaped text finds nothing and changes nothing. |
| `Fence.MatchesFallOnBoundaries` | crates/nanna-channels/src/untrusted.rs:52-57 | In valid UTF-8 the slices taken at a match are on character boundaries. |
| `Fence.OneFenceAtTheEnd` | crates/nanna-channels/src/untrusted.rs:25-43 | A frame around clean name and body holds exactly one closing fence, at its end. |
| `Fence.FrameUntrustedWebhookPayload` | crates/nanna-channels/src/untrusted.rs:25-43 | For every label and payload the frame holds exactly one closing fence in any letter case, at its end; the label stands in the header and the body between the fences, verbatim but for escaping. |
| `Webhook.WebhookFenceIsOk` | crates/nanna-channels/src/untrusted.rs:12-35 | The actual fence, escape and header meet the conditions the results above need. |
| `Health.CountersAreTrailingRuns` | crates/nanna-agent/src/supervisor.rs:251-295 | After any history the counters are the trailing failure and success runs, with the saturation of the source. |
| `Health.UnhealthyExactlyWhenDegraded` | crates/nanna-agent/src/supervisor.rs:251-295 | Unhealthy if and only if some run of enough failures is followed by no run of enough passes. |
| `Health.UnhealthyInNumbers` | crates/nanna-agent/src/supervisor.rs:249-250 | The same with the thresholds as given, a threshold of 0 counting as 1. |
| `Health.EventsAlternate` | crates/nanna-agent/src/supervisor.rs:251-295 | Degrade and recover events strictly alternate from a degrade, the last one tells the state, and each result adds one event exactly when the state changes. |
| `Health.OtherStatesNeverMove` | crates/nanna-agent/src/supervisor.rs:251-295 | No history of results moves an agent that is neither running nor unhealthy, or raises an event for it. |
| `Registry.RegisteringKeepsConsistent` | crates/nanna-agent/src/registry.rs:308-439 | Storing a new agent and pushing it on its lists keeps both indexes equal to plain filters. |
| `Registry.RemovingKeepsConsistent` | crates/nanna-agent/src/registry.rs:804-849 | Taking an agent out of the map and the lists keeps them so. |
| `Registry.UpdatingKeepsConsistent` | crates/nanna-agent/src/registry.rs:486-506 | A change of anything but parent and workspace moves no index. |
| `Registry.AgentRegistry.RegisterMain` | crates/nanna-agent/src/registry.rs:308-355 | Adds exactly the new agent under a fresh id, indexes in step. |
| `Registry.AgentRegistry.RegisterStandalone` | crates/nanna-agent/src/registry.rs:442-479 | Adds an agent outside every workspace, indexes in step. |
| `Registry.AgentRegistry.SpawnSubAgent` | crates/nanna-agent/src/registry.rs:363-439 | Refuses an unknown parent; otherwise adds one agent in the parent's workspace, puts it on the parent's own list, changes nobody else, and keeps the indexes in step. |
| `Registry.AgentRegistry.SetState` | crates/nanna-agent/src/registry.rs:486-506 | Changes state and time of a known agent, nothing for an unknown one. |
| `Registry.AgentRegistry.Cleanup` | crates/nanna-agent/src/registry.rs:804-849 | Exactly the agents completed, failed or cancelled before the cutoff go, from map and indexes. |
| `Registry.AgentRegistry.ByWorkspace` | crates/nanna-agent/src/registry.rs:610-621 | Exactly the registered agents of the workspace, each once. |
| `Registry.AgentRegistry.Children` | crates/nanna-agent/src/registry.rs:624-635 | Exactly the registered agents with this parent, each once; nothing for an unregistered parent. |
| `RegistrySteps.StepKeepsInv` | crates/nanna-agent/src/registry.rs:308-439 | Each lock scope of a registration, the parent's own record included, a state change and a removal keep the relation between map, lists, records and unfinished registrations. |
| `RegistrySteps.QueriesAreFilters` | crates/nanna-agent/src/registry.rs:610-635 | In every interleaving of any number of registrations and cleanups, `by_workspace` is the plain filter without agents whose registration is unfinished, and `children` and the parent's own record are the plain filter without those still to be filed or recorded; nobody is named twice or wrongly. |
| `RegistrySteps.QuietQueriesAreExact` | crates/nanna-agent/src/registry.rs:610-635 | Once no registration is under way all three are the plain filters, whatever ran before. |
| `RegistrySteps.CleanupCanLeaveAnId` | crates/nanna-agent/src/registry.rs:329-340 | A removal between two lock scopes leaves an id on a workspace list for good, though no query shows it: a concrete run. |
| `RegistrySteps.RegistrationFinishes` | crates/nanna-agent/src/registry.rs:308-439 | A registration left to itself finishes in at most four steps, and its agent is then in the map. |
| `LockOrder.StepKeepsInv` | crates/nanna-agent/src/registry.rs:610-635 | No two jobs ever hold a lock in conflicting ways, for any number of queries, cleanups and single accesses. |
| `LockOrder.EmbracedForever` | crates/nanna-agent/src/registry.rs:817-820 | Once a cleanup has the agents and a query only its index, neither ever gets on, whatever the others do. |
| `LockOrder.WayOut` | crates/nanna-agent/src/registry.rs:804-849 | In every other state some schedule lets everybody finish. |
| `LockOrder.StuckExactlyWhen` | crates/nanna-agent/src/registry.rs:804-849 | The two together: everybody can finish if and only if no such pair exists. |
| `LockOrder.DoomedExactlyBy` | crates/nanna-agent/src/registry.rs:817-820 | The steps that lead there: a cleanup taking the agents past a half-way query, or a query taking its index under a cleanup. |
| `LockOrder.QueryAndCleanupCanWaitForever` | crates/nanna-agent/src/registry.rs:610-621 | It can happen: a run of four steps. |
| `Budget.SharesStayWithin84Percent` | crates/nanna-agent/src/context.rs:1377-1402 | The shares together are at most 84% of the budget, floating-point rounding included, for every number of agents. |
| `Budget.EarlierGetsNoLess` | crates/nanna-agent/src/context.rs:1390-1396 | Shares never increase with the index, under any monotone rounding and for budgets of any size. |
| `Budget.BonusesUseHalfThePool` | crates/nanna-agent/src/context.rs:1393-1399 | The bonuses use half of the pool set aside for them, short by less than a token per agent, and never more. |
| `Budget.RoundoffIsFloat` | crates/nanna-agent/src/context.rs:1394-1396 | Any arithmetic with a unit roundoff keeps the three-operation share within the cubes of its error, which is all the sums need. |
| `Budget.DoublesArePrecise` | crates/nanna-agent/src/context.rs:1394-1396 | Doubles are precise enough for pools of up to 2^51 tokens: the error stays below one token. |
| `Budget.ExactIsFloat` | crates/nanna-agent/src/context.rs:1377-1402 | Exact arithmetic is a case of it, so the results hold there for budgets of any size. |
| `Budget.ReserveKeptExactlyWhen` | crates/nanna-agent/src/context.rs:1384-1385 | Under any rounding the documented 20% reserve stays untouched if and only if the bonuses fit in the remainder of the even division. |
| `Budget.ReserveIsKept` | crates/nanna-agent/src/context.rs:1384-1401 | It is kept with a single agent and whenever half the pool fits in the remainder of the even division. |
| `Budget.ReserveIsCutInto` | crates/nanna-agent/src/context.rs:1384-1401 | It is cut into whenever the remainder of the even division falls short of half the pool by more than a token per agent. |
| `Budget.FractionsAre` | crates/nanna-agent/src/context.rs:1384-1393 | Four fifths of the budget and a tenth of that, rounded down. |
| `Budget.FirstAndLastShare` | crates/nanna-agent/src/context.rs:1387-1401 | In exact arithmetic the last agent gets an even share and the first an even share of the pool on top. |
| `Budget.DefaultBudgetCutsIntoTheReserve` | crates/nanna-agent/src/context.rs:1378-1401 | At the default budget and two agents the reserve is cut into, and the 84% bound holds. |
| `Lines.SplitInclusive` | crates/nanna-agent/src/compressor.rs:492-492 | The lines joined are the content, and each has its newline at its end only. |
| `Lines.ElisionIsVerbatim` | crates/nanna-agent/src/compressor.rs:531-534 | Head and tail are whole-line slices of the content, and kept and elided sizes add up to it. |
| `Lines.ElideByLines` | crates/nanna-agent/src/compressor.rs:491-563 | Kept runs are the longest within half the target, or the one-line floor; from four lines on a result exists if and only if something is elided and the output is strictly shorter; it is prefix, exact marker, suffix. Below four lines it is shorter if and only if the marker is shorter than what is missing. |
| `Lines.ElidedKeepsBothEnds` | crates/nanna-agent/src/compressor.rs:531-558 | The output begins with the first lines and ends with the last ones; the marker between them counts lines and bytes exactly and names the gap by the listing's own numbers when both are there. |
| `Lines.HalfIsLargest` | crates/nanna-agent/src/compressor.rs:497-498 | Half the target is the largest half of the ratio's part of the content. |
| `Lines.FallbackKeepsTheEnds` | crates/nanna-agent/src/compressor.rs:570-592 | Prefix, exact count, suffix; each end is the longest on a boundary within half the target. |
| `Lines.FallbackCanLengthen` | crates/nanna-agent/src/compressor.rs:570-592 | The char-level path has no length test: at ratio 1 two hundred characters come back longer. |
| `Selection.Rank` | crates/nanna-agent/src/compressor.rs:380-382 | One row per score, in strict rank order. |
| `Selection.SelectKeepIndices` | crates/nanna-agent/src/compressor.rs:376-387 | Strictly increasing indices, as many as asked for or as there are, and every kept one beats every dropped one by score, then by position. |
| `Selection.SelectionIsUnique` | crates/nanna-agent/src/compressor.rs:376-387 | Those properties leave exactly one selection. |
| `Selection.PickedIsSubsequence` | crates/nanna-agent/src/compressor.rs:209-222 | Picking at strictly increasing positions gives a subsequence of the sentences, in their original order. |
| `Selection.JoinSurvivors` | crates/nanna-agent/src/compressor.rs:209-222 | The loop writes the picked sentences one after the other, a line staying a line. |
| `Selection.ShapedKeepsTheWords` | crates/nanna-agent/src/compressor.rs:211-219 | A kept sentence is its trimmed words, and a newline where it ended a line or a blank where it did not. |
| `Selection.ShapedInOrder` | crates/nanna-agent/src/compressor.rs:209-222 | The joined text holds every kept sentence one after the other. |
| `Selection.KeepBest` | crates/nanna-agent/src/compressor.rs:128-130 | Selecting and joining: the best sentences, as many as asked for, in original order. |

## Left out

- Integer width: lengths, token counts and `hard_limit * 4` (saturating in the source) are unbounded naturals; only the health counters, which can reach their limit by counting, saturate at `u32::MAX`.
- Budget.SharesStayWithin84Percent: for doubles, pools above 2^51 tokens are not covered, where the error may reach a token; exponents are unbounded.
- Budget.BonusesUseHalfThePool: for doubles, pools above 2^51 tokens are not covered, where the error may reach a token; exponents are unbounded.
- Budget.ReserveIsKept: for doubles, pools above 2^51 tokens are not covered, where the error may reach a token; exponents are unbounded.
- Budget.ReserveIsCutInto: for doubles, pools above 2^51 tokens are not covered, where the error may reach a token; exponents are unbounded.
- `chars_for_tokens` is an arbitrary function from tokens to characters.
- Model clients, HTTP, async runtimes, timeouts, logging and clocks: replies and times are parameters.
- What a summary says: coverage is stated in terms of chunk boundaries. A single message larger than a summarizer's window is given as its own chunk and cut inside `summarize_chunk`, and still counts as covered.
- Wording of prompts, notes and orphan verdicts: parameters, except where their length or letters matter (elision notice, fence, join texts of the summary slot). The reasons in loss notices are abbreviated.
- `context_preamble`: an arbitrary function of the summary slot; distilled facts and verified outcomes are part of that function.
- `plausible_summary`, `splice_summaries`: the first is part of a model's reply, the second an arbitrary function of the parts.
- `compress_older_tool_results` and `enforce_limits`: the first tests length before adding its banner and cuts no message, the second is a thin wrapper around `Compress` and `TruncateToLimit`.
- `messages_for_request` keeps the pairing of calls and results although deduplication may change texts; the coverage test behind deduplication (threshold 0.7) is an arbitrary predicate.
- `parse_plan`, `normalize_task`, `title_from_goal`, `clamp_bytes`: JSON values to task records and text clamping, easy beside the scanner.
- `split_sentences`, `parse_scores`: text formatting around the selection; white space (`trim`) is a parameter, and `leading_line_number` an arbitrary function in `Lines`.
- Task status, mailboxes and polling in `multi.rs`: agent bodies are stubs, and polling may overwrite a cancelled task, so terminal states are not final there.
- Restart, start and stop in `supervisor.rs`: `check_agents` probes only running agents, so recovery through that loop is not claimed; results are stated for any stream of check results.
- Registry.AgentRegistry.RegisterMain: one whole call is one step of the class; calls interleaved between their locks are the subject of `RegistrySteps`.
- Registry.AgentRegistry.SpawnSubAgent: likewise, so a parent removed in the middle of the call occurs only in `RegistrySteps`.
- Registry.AgentRegistry.Cleanup: scan and pruning are one step of the class; in `RegistrySteps` a removal may strike at any time, whatever was scanned. An agent's own `children` list in its record is not pruned by the source, and neither is it here.
- RegistrySteps.QueriesAreFilters: a query and one agent's removal are single steps, as the locks they hold make them; waiting for those locks is the subject of `LockOrder`.
- LockOrder.WayOut: locks are granted to anybody they are free for; the queue in which `tokio` serves waiters, which can bring the stuck state about earlier, is not modelled.
- Lifecycle events of the registry; identifiers are the counter they are built from.
- CancelToken.NoLostWakeup: `Notify` is modelled without the wake-up a future may receive between its creation and its registration; the proof does not need it.
- `Agent::clear` (loop_runner.rs) empties the list from outside `AgentContext` and is not an operation of the runs; the theorems are about pins in range.
- AgentContexts.AgentContext.Compress: when only the pinned message is old, the source still asks the model and appends a summary of 0 messages; so does the model, and nothing is claimed about that text.
- AgentContexts.AgentContext.PushMessage: stands for every direct push of the agent loop; the blocks pushed are a parameter, and the loop's edits inside messages that stay where they are (evicting old tool output) are not modelled.
