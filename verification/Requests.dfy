/**
  From a context's messages to the messages of a request: deduplicate, prepend the
  preamble, repair tool results whose call was cut away, drop empty text.
 */
module Requests {
  import opened Wrappers
  import opened History
  import opened Messages
  import opened Sequences

  /** The words put before an orphan's output: did the call fail, and how long is the output. */
  type Note = (bool, nat) -> string

  const NO_CONTENT := "[No content]"

  // ---------------------------------------------------------------------
  // Which calls a request has issued
  // ---------------------------------------------------------------------

  /** Ids of the tool uses among the first n blocks. */
  function Issued(blocks: seq<Block>, n: nat): set<string>
    requires n <= |blocks|
  {
    if n == 0 then {}
    else if blocks[n - 1].ToolUse? then Issued(blocks, n - 1) + {blocks[n - 1].id}
    else Issued(blocks, n - 1)
  }

  function IssuedBy(message: Message): set<string> {
    Issued(message.content, |message.content|)
  }

  /** Ids issued by the first m messages. */
  function IssuedIn(messages: seq<Message>, m: nat): set<string>
    requires m <= |messages|
  {
    if m == 0 then {} else IssuedIn(messages, m - 1) + IssuedBy(messages[m - 1])
  }

  predicate IsOrphan(block: Block, seen: set<string>) {
    block.ToolResult? && block.toolUseId !in seen
  }

  function IssuedBefore(messages: seq<Message>, m: nat, b: nat): set<string>
    requires m < |messages| && b <= |messages[m].content|
  {
    IssuedIn(messages, m) + Issued(messages[m].content, b)
  }

  predicate IsOrphanAt(messages: seq<Message>, m: nat, b: nat)
    requires m < |messages| && b < |messages[m].content|
  {
    IsOrphan(messages[m].content[b], IssuedBefore(messages, m, b))
  }

  /** Every tool result has an earlier tool use with its id. */
  predicate AllPaired(messages: seq<Message>) {
    forall m :: 0 <= m < |messages| ==> PairedIn(messages, m)
  }

  predicate PairedIn(messages: seq<Message>, m: nat)
    requires m < |messages|
  {
    forall b :: 0 <= b < |messages[m].content| ==> !IsOrphanAt(messages, m, b)
  }

  // ---------------------------------------------------------------------
  // Repair
  // ---------------------------------------------------------------------

  /** An orphan becomes text that ends in its output, word for word. */
  function Repaired(note: Note, block: Block): (r: Block)
    requires block.ToolResult?
    ensures r.Text? && |block.content| <= |r.text| && r.text[|r.text| - |block.content|..] == block.content
  {
    Text(note(block.isError.GetOr(false), |block.content|) + block.content)
  }

  function RepairAt(note: Note, messages: seq<Message>, m: nat, b: nat): Block
    requires m < |messages| && b < |messages[m].content|
  {
    var block := messages[m].content[b];
    if IsOrphanAt(messages, m, b) then Repaired(note, block) else block
  }

  predicate RepairedBlock(note: Note, messages: seq<Message>, r: seq<Message>, m: nat, b: nat)
    requires m < |messages| == |r| && b < |messages[m].content| == |r[m].content|
  {
    r[m].content[b] == RepairAt(note, messages, m, b)
  }

  predicate RepairedMessage(note: Note, messages: seq<Message>, r: seq<Message>, m: nat)
    requires m < |messages| == |r|
  {
    && r[m].role == messages[m].role && |r[m].content| == |messages[m].content|
    && forall b :: 0 <= b < |messages[m].content| ==> RepairedBlock(note, messages, r, m, b)
  }

  /** Orphans are rewritten; every other block is where and what it was. */
  predicate IsRepair(note: Note, messages: seq<Message>, r: seq<Message>) {
    |r| == |messages| && forall m :: 0 <= m < |messages| ==> RepairedMessage(note, messages, r, m)
  }

  /** First pass: the positions of the orphans, in order. */
  method OrphanPositions(messages: seq<Message>) returns (orphans: seq<(nat, nat)>)
    ensures forall p :: p in orphans <==> p.0 < |messages| && p.1 < |messages[p.0].content| && IsOrphanAt(messages, p.0, p.1)
    ensures forall i, j :: 0 <= i < j < |orphans| ==> orphans[i] != orphans[j]
  {
    orphans := [];
    var seen: set<string> := {};
    for m := 0 to |messages|
      invariant seen == IssuedIn(messages, m)
      invariant forall p :: p in orphans <==> p.0 < m && p.1 < |messages[p.0].content| && IsOrphanAt(messages, p.0, p.1)
      invariant forall i, j :: 0 <= i < j < |orphans| ==> orphans[i] != orphans[j]
    {
      var content := messages[m].content;
      for b := 0 to |content|
        invariant seen == IssuedBefore(messages, m, b)
        invariant forall p :: p in orphans <==>
            ((p.0 < m || (p.0 == m && p.1 < b)) && p.1 < |messages[p.0].content| && IsOrphanAt(messages, p.0, p.1))
        invariant forall i, j :: 0 <= i < j < |orphans| ==> orphans[i] != orphans[j]
      {
        if content[b].ToolUse? {
          seen := seen + {content[b].id};
        } else if IsOrphan(content[b], seen) {
          orphans := orphans + [(m, b)];
        }
      }
    }
  }

  method RepairOrphanToolResults(note: Note, messages: seq<Message>) returns (r: seq<Message>)
    ensures IsRepair(note, messages, r)
  {
    var orphans := OrphanPositions(messages);
    r := messages;
    for i := 0 to |orphans|
      invariant |r| == |messages|
      invariant forall m :: 0 <= m < |messages| ==> r[m].role == messages[m].role && |r[m].content| == |messages[m].content|
      invariant forall m, b :: 0 <= m < |messages| && 0 <= b < |messages[m].content| ==>
          r[m].content[b] == if (m, b) in orphans[..i] then RepairAt(note, messages, m, b) else messages[m].content[b]
    {
      var (m, b) := orphans[i];
      assert orphans[i] in orphans;
      var block := r[m].content[b];
      r := r[m := Message(r[m].role, r[m].content[b := Repaired(note, block)])];
    }
    assert orphans[..|orphans|] == orphans;
    forall m | 0 <= m < |messages| ensures RepairedMessage(note, messages, r, m) {
      forall b | 0 <= b < |messages[m].content| ensures RepairedBlock(note, messages, r, m, b) {
        assert (m, b) in orphans <==> IsOrphanAt(messages, m, b);
      }
    }
  }

  /** Repair neither adds nor removes a tool use. */
  lemma {:induction false} RepairKeepsIssuedBlocks(note: Note, messages: seq<Message>, r: seq<Message>, m: nat, b: nat)
    requires IsRepair(note, messages, r) && m < |messages| && b <= |messages[m].content|
    ensures |r[m].content| == |messages[m].content|
    ensures Issued(r[m].content, b) == Issued(messages[m].content, b)
  {
    assert RepairedMessage(note, messages, r, m);
    if b > 0 {
      RepairKeepsIssuedBlocks(note, messages, r, m, b - 1);
      assert RepairedBlock(note, messages, r, m, b - 1);
    }
  }

  lemma {:induction false} RepairKeepsIssued(note: Note, messages: seq<Message>, r: seq<Message>, m: nat)
    requires IsRepair(note, messages, r) && m <= |messages|
    ensures IssuedIn(r, m) == IssuedIn(messages, m)
  {
    if m > 0 {
      RepairKeepsIssued(note, messages, r, m - 1);
      assert RepairedMessage(note, messages, r, m - 1);
      RepairKeepsIssuedBlocks(note, messages, r, m - 1, |messages[m - 1].content|);
    }
  }

  /** After repair every tool result has its call, and a request that had them all is left alone. */
  lemma RepairPairsEverything(note: Note, messages: seq<Message>, r: seq<Message>)
    requires IsRepair(note, messages, r)
    ensures AllPaired(r)
    ensures AllPaired(messages) ==> r == messages
  {
    forall m | 0 <= m < |r| ensures PairedIn(r, m) && (AllPaired(messages) ==> r[m] == messages[m]) {
      assert RepairedMessage(note, messages, r, m);
      RepairKeepsIssued(note, messages, r, m);
      forall b | 0 <= b < |r[m].content|
        ensures !IsOrphanAt(r, m, b)
        ensures AllPaired(messages) ==> r[m].content[b] == messages[m].content[b]
      {
        assert RepairedBlock(note, messages, r, m, b);
        RepairKeepsIssuedBlocks(note, messages, r, m, b);
        assert AllPaired(messages) ==> PairedIn(messages, m);
      }
    }
  }

  /** Repairing twice is repairing once. */
  lemma RepairIsIdempotent(note: Note, messages: seq<Message>, once: seq<Message>, twice: seq<Message>)
    requires IsRepair(note, messages, once) && IsRepair(note, once, twice)
    ensures twice == once
  {
    RepairPairsEverything(note, messages, once);
    RepairPairsEverything(note, once, twice);
  }

  // ---------------------------------------------------------------------
  // Sanitizing
  // ---------------------------------------------------------------------

  predicate IsEmptyText(block: Block) {
    block.Text? && block.text == ""
  }

  /** The first n blocks without their empty texts. */
  function Kept(blocks: seq<Block>, n: nat): seq<Block>
    requires n <= |blocks|
  {
    if n == 0 then []
    else if IsEmptyText(blocks[n - 1]) then Kept(blocks, n - 1)
    else Kept(blocks, n - 1) + [blocks[n - 1]]
  }

  function SanitizeMessage(message: Message): Message {
    var kept := Kept(message.content, |message.content|);
    Message(message.role, if kept == [] then [Text(NO_CONTENT)] else kept)
  }

  function Sanitize(messages: seq<Message>): seq<Message> {
    seq(|messages|, m requires 0 <= m < |messages| => SanitizeMessage(messages[m]))
  }

  /** A kept block stands behind exactly the tool uses it stood behind before. */
  lemma {:induction false} KeptIssues(blocks: seq<Block>, n: nat)
    requires n <= |blocks|
    ensures Issued(Kept(blocks, n), |Kept(blocks, n)|) == Issued(blocks, n)
  {
    if n > 0 {
      KeptIssues(blocks, n - 1);
      var front := Kept(blocks, n - 1);
      if !IsEmptyText(blocks[n - 1]) {
        IssuedOfPrefix(front, [blocks[n - 1]], |front|);
      }
    }
  }

  lemma {:induction false} IssuedOfPrefix(a: seq<Block>, b: seq<Block>, n: nat)
    requires n <= |a|
    ensures Issued(a + b, n) == Issued(a, n)
  {
    if n > 0 {
      IssuedOfPrefix(a, b, n - 1);
    }
  }

  /** Where a kept block came from. */
  lemma {:induction false} KeptFrom(blocks: seq<Block>, n: nat, k: nat) returns (b: nat)
    requires n <= |blocks| && k < |Kept(blocks, n)|
    ensures b < n && Kept(blocks, n)[k] == blocks[b] && !IsEmptyText(blocks[b])
    ensures Issued(Kept(blocks, n), k) == Issued(blocks, b)
  {
    var front := Kept(blocks, n - 1);
    if IsEmptyText(blocks[n - 1]) {
      b := KeptFrom(blocks, n - 1, k);
    } else if k < |front| {
      b := KeptFrom(blocks, n - 1, k);
      IssuedOfPrefix(front, [blocks[n - 1]], k);
    } else {
      b := n - 1;
      KeptIssues(blocks, n - 1);
      IssuedOfPrefix(front, [blocks[n - 1]], k);
    }
  }

  lemma {:induction false} SanitizeKeepsIssued(messages: seq<Message>, m: nat)
    requires m <= |messages|
    ensures IssuedIn(Sanitize(messages), m) == IssuedIn(messages, m)
  {
    if m > 0 {
      SanitizeKeepsIssued(messages, m - 1);
      var content := messages[m - 1].content;
      KeptIssues(content, |content|);
      assert Issued([Text(NO_CONTENT)], 1) == Issued([Text(NO_CONTENT)], 0);
    }
  }

  /** What a provider demands of a request's messages. */
  predicate Sendable(messages: seq<Message>) {
    && AllPaired(messages)
    && forall m :: 0 <= m < |messages| ==> NonEmpty(messages[m])
  }

  predicate NonEmpty(message: Message) {
    message.content != [] && forall b :: 0 <= b < |message.content| ==> !IsEmptyText(message.content[b])
  }

  /** Dropping empty text keeps every pairing and leaves no message empty. */
  lemma SanitizedIsSendable(messages: seq<Message>)
    requires AllPaired(messages)
    ensures Sendable(Sanitize(messages))
  {
    var r := Sanitize(messages);
    forall m | 0 <= m < |r| ensures PairedIn(r, m) && NonEmpty(r[m]) {
      var content := messages[m].content;
      SanitizeKeepsIssued(messages, m);
      assert PairedIn(messages, m);
      if Kept(content, |content|) != [] {
        forall k | 0 <= k < |r[m].content| ensures !IsOrphanAt(r, m, k) && !IsEmptyText(r[m].content[k]) {
          var b := KeptFrom(content, |content|, k);
          assert !IsOrphanAt(messages, m, b);
        }
      } else {
        assert r[m].content[0] == Text(NO_CONTENT);
      }
    }
  }

  // ---------------------------------------------------------------------
  // What sanitizing leaves
  // ---------------------------------------------------------------------

  /** Everything but the empty texts stays, in order and as often as it was there. */
  ghost predicate AllButEmptyTexts(blocks: seq<Block>, kept: seq<Block>) {
    && IsSubsequence(kept, blocks)
    && Text("") !in kept
    && forall x :: x != Text("") ==> multiset(kept)[x] == multiset(blocks)[x]
  }

  lemma {:induction false} KeptIsTheRest(blocks: seq<Block>, n: nat)
    requires n <= |blocks|
    ensures AllButEmptyTexts(blocks[..n], Kept(blocks, n))
  {
    if n > 0 {
      KeptIsTheRest(blocks, n - 1);
      var kept, x := Kept(blocks, n - 1), blocks[n - 1];
      assert blocks[..n] == blocks[..n - 1] + [x];
      BagOneMore(blocks[..n - 1], x);
      if x == Text("") {
        SubsequenceSkipping(kept, blocks[..n - 1], x);
      } else {
        BagOneMore(kept, x);
        SubsequenceKeeping(kept, blocks[..n - 1], x);
      }
    }
  }

  /** One message as it is sent: its words without empty texts, or a stand-in when nothing else was there. */
  ghost predicate IsSanitized(before: Message, after: Message) {
    && after.role == before.role
    && (if forall b :: 0 <= b < |before.content| ==> before.content[b] == Text("")
        then after.content == [Text("[No content]")]
        else AllButEmptyTexts(before.content, after.content))
  }

  lemma SanitizedKeepsTheRest(messages: seq<Message>, m: nat)
    requires m < |messages|
    ensures |Sanitize(messages)| == |messages| && IsSanitized(messages[m], Sanitize(messages)[m])
    ensures NonEmpty(messages[m]) ==> Sanitize(messages)[m] == messages[m]
  {
    var blocks := messages[m].content;
    KeptIsTheRest(blocks, |blocks|);
    assert blocks[..|blocks|] == blocks;
    var kept := Kept(blocks, |blocks|);
    if kept == [] {
      forall b | 0 <= b < |blocks| ensures blocks[b] == Text("") {
        assert blocks[b] in multiset(blocks);
      }
    }
    if NonEmpty(messages[m]) {
      NothingToDrop(blocks, |blocks|);
    }
  }

  lemma {:induction false} NothingToDrop(blocks: seq<Block>, n: nat)
    requires n <= |blocks| && forall b :: 0 <= b < |blocks| ==> !IsEmptyText(blocks[b])
    ensures Kept(blocks, n) == blocks[..n]
  {
    if n > 0 {
      NothingToDrop(blocks, n - 1);
    }
  }

  /** What could be sent already is sent as it is. */
  lemma SendableIsUntouched(note: Note, messages: seq<Message>, repaired: seq<Message>)
    requires Sendable(messages) && IsRepair(note, messages, repaired)
    ensures Sanitize(repaired) == messages
  {
    RepairPairsEverything(note, messages, repaired);
    forall m | 0 <= m < |messages| ensures Sanitize(messages)[m] == messages[m] {
      SanitizedKeepsTheRest(messages, m);
    }
  }

  /** The verdict put before an orphan's output is a failure only if the result says so. */
  lemma RepairTellsTheVerdict(note: Note, id: string, content: string, isError: Option<bool>)
    ensures Repaired(note, ToolResult(id, content, isError)) ==
              Text((if isError == Some(true) then note(true, |content|) else note(false, |content|)) + content)
  {
    assert isError.GetOr(false) == (isError == Some(true));
  }

  // ---------------------------------------------------------------------
  // The request
  // ---------------------------------------------------------------------

  /** What deduplication knows of a text: is it mostly covered by the summary, and what stands in for it. */
  datatype Dedup = Dedup(covered: string -> bool, textNote: string -> string, outputNote: string -> string)

  function DedupBlock(d: Dedup, block: Block): Block {
    match block
    case Text(text) =>
      if |text| >= DEDUP_MIN_SIZE && d.covered(text) then Text(d.textNote(text)) else block
    case ToolResult(id, content, isError) =>
      if |content| >= DEDUP_MIN_SIZE && d.covered(content) then ToolResult(id, d.outputNote(content), isError) else block
    case _ => block
  }

  function DedupMessage(d: Dedup, message: Message): Message {
    Message(message.role, seq(|message.content|, b requires 0 <= b < |message.content| => DedupBlock(d, message.content[b])))
  }

  function DedupMessages(d: Dedup, messages: seq<Message>): seq<Message> {
    seq(|messages|, m requires 0 <= m < |messages| => DedupMessage(d, messages[m]))
  }

  /** Deduplication swaps the words of large covered texts and results for a note, and nothing else. */
  lemma DedupStandsIn(d: Dedup, messages: seq<Message>, m: nat, b: nat)
    requires m < |messages| && b < |messages[m].content|
    ensures |DedupMessages(d, messages)| == |messages|
    ensures var before, after := messages[m], DedupMessages(d, messages)[m];
      && after.role == before.role && |after.content| == |before.content|
      && match before.content[b]
         case Text(text) =>
           after.content[b] == if 4000 <= |text| && d.covered(text) then Text(d.textNote(text)) else before.content[b]
         case ToolResult(id, content, isError) =>
           after.content[b] ==
             if 4000 <= |content| && d.covered(content) then ToolResult(id, d.outputNote(content), isError) else before.content[b]
         case _ => after.content[b] == before.content[b]
  {
  }

  /** messages_for_request: whatever the history holds, what is sent is sendable, and nothing else is lost. */
  method MessagesForRequest(note: Note, dedup: Option<Dedup>, preamble: Option<string>, acknowledgement: string,
                            messages: seq<Message>)
    returns (request: seq<Message>, raw: seq<Message>, repaired: seq<Message>)
    ensures raw == (if preamble.None? then [] else
                      [Message("user", [Text(preamble.value)]), Message("assistant", [Text(acknowledgement)])])
                   + (if dedup.None? then messages else DedupMessages(dedup.value, messages))
    ensures IsRepair(note, raw, repaired) && request == Sanitize(repaired)
    ensures Sendable(request)
    ensures |request| == |repaired| == |raw|
    ensures forall m :: 0 <= m < |repaired| ==> IsSanitized(repaired[m], request[m])
    ensures Sendable(raw) ==> request == raw
    ensures preamble.None? && dedup.None? && Sendable(messages) ==> request == messages
  {
    var deduped := if dedup.None? then messages else DedupMessages(dedup.value, messages);
    raw := [];
    if preamble.Some? {
      raw := [Message("user", [Text(preamble.value)]), Message("assistant", [Text(acknowledgement)])];
    }
    raw := raw + deduped;
    assert preamble.None? && dedup.None? ==> raw == messages;
    repaired := RepairOrphanToolResults(note, raw);
    RepairPairsEverything(note, raw, repaired);
    SanitizedIsSendable(repaired);
    request := Sanitize(repaired);
    forall m | 0 <= m < |repaired| ensures IsSanitized(repaired[m], request[m]) {
      SanitizedKeepsTheRest(repaired, m);
    }
    if Sendable(raw) {
      SendableIsUntouched(note, raw, repaired);
    }
  }

  // ---------------------------------------------------------------------
  // Where a cut leaves orphans
  // ---------------------------------------------------------------------

  lemma {:induction false} WhoIssued(messages: seq<Message>, m: nat, id: string) returns (i: nat)
    requires m <= |messages| && id in IssuedIn(messages, m)
    ensures i < m && id in IssuedBy(messages[i])
  {
    if id in IssuedBy(messages[m - 1]) {
      i := m - 1;
    } else {
      i := WhoIssued(messages, m - 1, id);
    }
  }

  lemma {:induction false} IssuedByEach(messages: seq<Message>, i: nat, m: nat)
    requires i < m <= |messages|
    ensures IssuedBy(messages[i]) <= IssuedIn(messages, m)
  {
    if i < m - 1 {
      IssuedByEach(messages, i, m - 1);
    }
  }

  /** No survivor of the cut is entry i. */
  predicate Gone(h: History<Message>, k: nat, i: nat)
    requires k < |h.items|
  {
    forall j :: 0 <= j < |h.items| - k ==> Survivor(h.PinnedIndex(), 0, k, j) != i
  }

  /** In a history whose every result has its call, an orphan's call went with the cut. */
  lemma CutMakesTheOrphan(h: History<Message>, k: nat, m: nat, b: nat) returns (i: nat)
    requires h.Valid() && k < |h.items| && AllPaired(h.items)
    requires m < |Cut(h, k).items| && b < |Cut(h, k).items[m].content|
    requires IsOrphanAt(Cut(h, k).items, m, b)
    ensures i < |h.items| && Gone(h, k, i)
    ensures Cut(h, k).items[m].content[b].toolUseId in IssuedBy(h.items[i])
  {
    CutShape(h, k);
    var c, s := Cut(h, k).items, Survivor(h.PinnedIndex(), 0, k, m);
    var id := c[m].content[b].toolUseId;
    assert PairedIn(h.items, s) && !IsOrphanAt(h.items, s, b);
    i := WhoIssued(h.items, s, id);
    forall j | 0 <= j < |c| ensures Survivor(h.PinnedIndex(), 0, k, j) != i {
      if j < m {
        IssuedByEach(c, j, m);
      }
    }
  }

  /** A result follows its call in the same message or the one after: how an agent's turns are built. */
  predicate AnsweredAtOnce(messages: seq<Message>) {
    forall m, b :: 0 <= m < |messages| && 0 <= b < |messages[m].content| ==> AnswersPrevious(messages, m, b)
  }

  predicate AnswersPrevious(messages: seq<Message>, m: nat, b: nat)
    requires m < |messages| && b < |messages[m].content|
  {
    messages[m].content[b].ToolResult? ==>
      || messages[m].content[b].toolUseId in Issued(messages[m].content, b)
      || (m > 0 && messages[m].content[b].toolUseId in IssuedBy(messages[m - 1]))
  }

  predicate HoldsNoResult(message: Message) {
    forall b :: 0 <= b < |message.content| ==> !message.content[b].ToolResult?
  }

  /** An orphan can only stand right behind a gap: first, or behind the pinned message that was left first. */
  lemma OrphansFollowTheGap(h: History<Message>, k: nat, m: nat, b: nat)
    requires h.Valid() && k < |h.items| && AnsweredAtOnce(h.items)
    requires m < |Cut(h, k).items| && b < |Cut(h, k).items[m].content|
    requires IsOrphanAt(Cut(h, k).items, m, b)
    ensures m == 0 || (m == 1 && h.PinnedIndex() < k)
  {
    CutShape(h, k);
    var c, s := Cut(h, k).items, Survivor(h.PinnedIndex(), 0, k, m);
    assert AnswersPrevious(h.items, s, b);
    if m > 0 {
      IssuedByEach(c, m - 1, m);
      assert Survivor(h.PinnedIndex(), 0, k, m - 1) != s - 1;
    }
  }

  /** Some result of the message answers a call that neither `seen` nor an earlier block of it holds. */
  predicate LacksACall(message: Message, seen: set<string>) {
    exists b :: 0 <= b < |message.content| && IsOrphan(message.content[b], seen + Issued(message.content, b))
  }

  predicate HasOrphan(messages: seq<Message>, m: nat) {
    m < |messages| && LacksACall(messages[m], IssuedIn(messages, m))
  }

  /** The message right behind the pinned one after the cut answers a call of neither. */
  predicate NextLacksItsCall(h: History<Message>, k: nat)
    requires h.items != []
  {
    k + 1 < |h.items| && LacksACall(h.items[k + 1], IssuedBy(h.Pinned()))
  }

  /** Which messages hold orphans after a cut, told by the history before it. */
  lemma WhereOrphansAre(h: History<Message>, k: nat, m: nat)
    requires h.Valid() && k < |h.items| && AnsweredAtOnce(h.items)
    ensures HasOrphan(Cut(h, k).items, m) <==>
              if h.PinnedIndex() < k
              then (m == 0 && LacksACall(h.Pinned(), {})) || (m == 1 && NextLacksItsCall(h, k))
              else m == 0 && LacksACall(h.items[k], {})
  {
    CutShape(h, k);
    var c, p := Cut(h, k).items, h.PinnedIndex();
    if m < |c| {
      if m == 1 {
        assert IssuedIn(c, 1) == IssuedBy(c[0]);
      }
      if HasOrphan(c, m) {
        var b :| 0 <= b < |c[m].content| && IsOrphan(c[m].content[b], IssuedIn(c, m) + Issued(c[m].content, b));
        assert IsOrphanAt(c, m, b);
        OrphansFollowTheGap(h, k, m, b);
      }
    }
  }

  /** "A leading result" fails exactly when the pinned message comes first and the next one lost its call. */
  lemma OrphansLeadExactlyWhen(h: History<Message>, k: nat)
    requires h.Valid() && k < |h.items| && AnsweredAtOnce(h.items)
    ensures (exists m :: m != 0 && HasOrphan(Cut(h, k).items, m)) <==> h.PinnedIndex() < k && NextLacksItsCall(h, k)
  {
    WhereOrphansAre(h, k, 1);
    forall m: nat | m != 0 && HasOrphan(Cut(h, k).items, m) ensures h.PinnedIndex() < k && NextLacksItsCall(h, k) {
      WhereOrphansAre(h, k, m);
    }
  }

  /**
    The one-message bound fails exactly when the pinned message is left first, holds
    a result whose call is not in it, and the message behind it holds a result whose
    call is in neither of the two.
   */
  lemma OneMessageExactlyWhen(h: History<Message>, k: nat)
    requires h.Valid() && k < |h.items| && AnsweredAtOnce(h.items)
    ensures (exists m, n :: m != n && HasOrphan(Cut(h, k).items, m) && HasOrphan(Cut(h, k).items, n)) <==>
              h.PinnedIndex() < k && LacksACall(h.Pinned(), {}) && NextLacksItsCall(h, k)
  {
    var c := Cut(h, k).items;
    WhereOrphansAre(h, k, 0);
    WhereOrphansAre(h, k, 1);
    forall m: nat, n: nat | m != n && HasOrphan(c, m) && HasOrphan(c, n)
      ensures h.PinnedIndex() < k && LacksACall(h.Pinned(), {}) && NextLacksItsCall(h, k)
    {
      WhereOrphansAre(h, k, m);
      WhereOrphansAre(h, k, n);
    }
    if h.PinnedIndex() < k && LacksACall(h.Pinned(), {}) && NextLacksItsCall(h, k) {
      assert HasOrphan(c, 0) && HasOrphan(c, 1);
    }
  }

  function Call(id: string): Message {
    Message("assistant", [ToolUse(id, "read_file", "{}")])
  }

  function Answer(id: string): Message {
    Message("user", [ToolResult(id, "contents", None)])
  }

  /** A request, a call and its answer: cutting the call leaves the answer behind the request. */
  const ONE_CALL: History<Message> := History([Message("user", [Text("request")]), Call("a"), Answer("a")], None)

  /** Two calls and their answers, pinned at the first answer: cutting both calls leaves both answers. */
  const PINNED_ANSWER: History<Message> := History([Call("a"), Answer("a"), Call("b"), Answer("b")], Some(1))

  lemma OrphanBehindTheRequest()
    ensures ONE_CALL.Valid() && AnsweredAtOnce(ONE_CALL.items)
    ensures HasOrphan(Cut(ONE_CALL, 1).items, 1) && !HasOrphan(Cut(ONE_CALL, 1).items, 0)
  {
    var h := ONE_CALL;
    assert h.items[2] == Answer("a") && h.Pinned() == Message("user", [Text("request")]);
    assert Issued([Text("request")], 1) == {};
    assert IsOrphan(h.items[2].content[0], IssuedBy(h.Pinned()) + Issued(h.items[2].content, 0));
    assert "a" in Issued(Call("a").content, 1);
    WhereOrphansAre(h, 1, 0);
    WhereOrphansAre(h, 1, 1);
  }

  lemma TwoMessagesWithOrphans()
    ensures PINNED_ANSWER.Valid() && AnsweredAtOnce(PINNED_ANSWER.items)
    ensures HasOrphan(Cut(PINNED_ANSWER, 2).items, 0) && HasOrphan(Cut(PINNED_ANSWER, 2).items, 1)
  {
    var h := PINNED_ANSWER;
    assert h.items[3] == Answer("b") && h.Pinned() == Answer("a");
    assert "a" in Issued(Call("a").content, 1) && "b" in Issued(Call("b").content, 1);
    assert Issued(Answer("a").content, 1) == {};
    assert IsOrphan(h.Pinned().content[0], {} + Issued(h.Pinned().content, 0));
    assert IsOrphan(h.items[3].content[0], IssuedBy(h.Pinned()) + Issued(h.items[3].content, 0));
    WhereOrphansAre(h, 2, 0);
    WhereOrphansAre(h, 2, 1);
  }

  /**
    The one-message bound: when the pinned request holds no result itself, every
    orphan a cut makes is in one message, the oldest unpinned one that is left.
   */
  lemma OneMessageHoldsTheOrphans(h: History<Message>, k: nat, m: nat, b: nat)
    requires h.Valid() && k < |h.items| && AnsweredAtOnce(h.items) && HoldsNoResult(h.Pinned())
    requires m < |Cut(h, k).items| && b < |Cut(h, k).items[m].content|
    requires IsOrphanAt(Cut(h, k).items, m, b)
    ensures m == if h.PinnedIndex() < k then 1 else 0
  {
    OrphansFollowTheGap(h, k, m, b);
    CutShape(h, k);
    if h.PinnedIndex() < k {
      assert Survivor(h.PinnedIndex(), 0, k, 0) == h.PinnedIndex();
      assert Cut(h, k).items[0] == h.Pinned();
    }
  }
}
