/** Messages, their blocks, and what each block costs and reads as. */
module Messages {
  import opened Wrappers
  import opened Utf8
  import opened Sequences

  /** Texts below this size are neither hashed nor deduplicated. */
  const DEDUP_MIN_SIZE: nat := 4000

  datatype Block =
    | Text(text: string)
    | ToolUse(id: string, name: string, input: string)
    | ToolResult(toolUseId: string, content: string, isError: Option<bool>)
    | Thinking(thinking: string)
    | Image

  datatype Message = Message(role: string, content: seq<Block>)

  /** A message in a context's list, numbered by arrival so that cuts can be traced. */
  datatype Slot = Slot(uid: nat, message: Message)

  /**
    What the model takes from elsewhere, as arbitrary functions: the token
    estimators and the chars-per-token ratio of nanna-llm, the preamble built
    around a summary, chunk hashing, and the wording of notes and summaries.
   */
  datatype Env = Env(
    tokens: string -> nat,
    codeTokens: string -> nat,
    charsFor: nat -> nat,
    preamble: Option<string> -> Option<string>,
    hashes: string -> set<nat>,
    splice: seq<string> -> string,
    dropNote: seq<Slot> -> string)

  function BlockTokens(env: Env, block: Block): nat {
    match block
    case Text(text) => env.tokens(text)
    case ToolUse(_, _, input) => env.codeTokens(input) + 50
    case ToolResult(_, content, _) => env.tokens(content) + 20
    case Image => 1000
    case Thinking(thinking) => env.tokens(thinking)
  }

  function BlocksTokens(env: Env, blocks: seq<Block>): nat {
    if blocks == [] then 0 else BlockTokens(env, blocks[0]) + BlocksTokens(env, blocks[1..])
  }

  function SlotsTokens(env: Env, slots: seq<Slot>): nat {
    if slots == [] then 0 else BlocksTokens(env, slots[0].message.content) + SlotsTokens(env, slots[1..])
  }

  /** Costs are sums: nothing said twice, nothing left out. */
  lemma {:induction false} BlocksTokensAdd(env: Env, a: seq<Block>, b: seq<Block>)
    ensures BlocksTokens(env, a + b) == BlocksTokens(env, a) + BlocksTokens(env, b)
  {
    if a == [] {
      assert a + b == b;
    } else {
      assert (a + b)[0] == a[0] && (a + b)[1..] == a[1..] + b;
      BlocksTokensAdd(env, a[1..], b);
    }
  }

  lemma {:induction false} SlotsTokensAdd(env: Env, a: seq<Slot>, b: seq<Slot>)
    ensures SlotsTokens(env, a + b) == SlotsTokens(env, a) + SlotsTokens(env, b)
  {
    if a == [] {
      assert a + b == b;
    } else {
      assert (a + b)[0] == a[0] && (a + b)[1..] == a[1..] + b;
      SlotsTokensAdd(env, a[1..], b);
    }
  }

  /** What stands between the tokens of a block's text and its cost: nothing, or the frame of a call or a result. */
  lemma OneBlockCosts(env: Env, slot: Slot, block: Block)
    requires slot.message.content == [block]
    ensures SlotsTokens(env, [slot]) == BlocksTokens(env, [block])
    ensures block.Text? ==> SlotsTokens(env, [slot]) == env.tokens(block.text)
    ensures block.Thinking? ==> SlotsTokens(env, [slot]) == env.tokens(block.thinking)
    ensures block.ToolUse? ==> SlotsTokens(env, [slot]) == env.codeTokens(block.input) + 50
    ensures block.ToolResult? ==> SlotsTokens(env, [slot]) == env.tokens(block.content) + 20
    ensures block.Image? ==> SlotsTokens(env, [slot]) == 1000
  {
  }

  /** A list costs what its messages cost one by one; so every survivor is paid for. */
  lemma {:induction false} EveryMessageIsCounted(env: Env, slots: seq<Slot>, i: nat)
    requires i < |slots|
    ensures SlotsTokens(env, slots) ==
              SlotsTokens(env, slots[..i]) + BlocksTokens(env, slots[i].message.content) + SlotsTokens(env, slots[i + 1..])
  {
    assert slots == slots[..i] + ([slots[i]] + slots[i + 1..]);
    SlotsTokensAdd(env, slots[..i], [slots[i]] + slots[i + 1..]);
    SlotsTokensAdd(env, [slots[i]], slots[i + 1..]);
  }

  /** How a block reads in the blob handed to a summarizer. */
  function BlockText(block: Block): string {
    match block
    case Text(text) => text
    case ToolUse(_, name, input) => "[Tool call: " + name + " with input: " + input + "]"
    case ToolResult(_, content, _) => content
    case Thinking(thinking) =>
      "[Thinking: " + thinking[..FloorBoundary(thinking, if |thinking| < 200 then |thinking| else 200)] + "]"
    case Image => "[Image]"
  }

  /** How blocks and lines read; the context uses TRANSCRIPT, the lemmas below hold for any. */
  datatype Reading = Reading(text: Block -> string, line: (string, string) -> string)

  const TRANSCRIPT := Reading(BlockText, TranscriptLine)

  function TranscriptLine(role: string, text: string): string {
    "[" + role + "]: " + text + "\n"
  }

  /** The first n blocks of a message, rendered. */
  function RenderBlocks(read: Reading, role: string, blocks: seq<Block>, n: nat): string
    requires n <= |blocks|
  {
    if n == 0 then "" else RenderBlocks(read, role, blocks, n - 1) + read.line(role, read.text(blocks[n - 1]))
  }

  function RenderMessage(read: Reading, message: Message): string {
    RenderBlocks(read, message.role, message.content, |message.content|)
  }

  /** The first n messages, rendered. */
  function Render(read: Reading, slots: seq<Slot>, n: nat): string
    requires n <= |slots|
  {
    if n == 0 then "" else Render(read, slots, n - 1) + RenderMessage(read, slots[n - 1].message)
  }

  /** The characters extraction charges to its budget: block texts without their line frames. */
  function RawLength(read: Reading, blocks: seq<Block>, n: nat): nat
    requires n <= |blocks|
  {
    if n == 0 then 0 else RawLength(read, blocks, n - 1) + |read.text(blocks[n - 1])|
  }

  function RawLengthOf(read: Reading, message: Message): nat {
    RawLength(read, message.content, |message.content|)
  }

  function RawLengthAll(read: Reading, slots: seq<Slot>, n: nat): nat
    requires n <= |slots|
  {
    if n == 0 then 0 else RawLengthAll(read, slots, n - 1) + RawLengthOf(read, slots[n - 1].message)
  }

  lemma {:induction false} RawLengthGrows(read: Reading, blocks: seq<Block>, m: nat, n: nat)
    requires m <= n <= |blocks|
    ensures RawLength(read, blocks, m) <= RawLength(read, blocks, n)
    decreases n
  {
    if m < n {
      RawLengthGrows(read, blocks, m, n - 1);
    }
  }

  lemma {:induction false} RenderGrows(read: Reading, slots: seq<Slot>, m: nat, n: nat)
    requires m <= n <= |slots|
    ensures |Render(read, slots, m)| <= |Render(read, slots, n)|
    decreases n
  {
    if m < n {
      RenderGrows(read, slots, m, n - 1);
    }
  }

  // ---------------------------------------------------------------------
  // What a rendering holds
  // ---------------------------------------------------------------------

  lemma {:induction false} RenderBlocksHolds(read: Reading, role: string, blocks: seq<Block>, n: nat, b: nat)
    returns (before: string, after: string)
    requires b < n <= |blocks|
    ensures RenderBlocks(read, role, blocks, n) == before + read.line(role, read.text(blocks[b])) + after
    ensures before == RenderBlocks(read, role, blocks, b)
  {
    if b == n - 1 {
      before, after := RenderBlocks(read, role, blocks, b), "";
    } else {
      var rest;
      before, rest := RenderBlocksHolds(read, role, blocks, n - 1, b);
      after := rest + read.line(role, read.text(blocks[n - 1]));
    }
  }

  lemma {:induction false} RenderHolds(read: Reading, slots: seq<Slot>, n: nat, m: nat, b: nat)
    returns (before: string, after: string)
    requires m < n <= |slots| && b < |slots[m].message.content|
    ensures Render(read, slots, n) == before + read.line(slots[m].message.role, read.text(slots[m].message.content[b])) + after
    ensures |Render(read, slots, m)| <= |before|
  {
    if m == n - 1 {
      var message := slots[m].message;
      var inner, rest := RenderBlocksHolds(read, message.role, message.content, |message.content|, b);
      before, after := Render(read, slots, m) + inner, rest;
    } else {
      var rest;
      before, rest := RenderHolds(read, slots, n - 1, m, b);
      after := rest + RenderMessage(read, slots[n - 1].message);
    }
  }

  /** A text or a result is read whole, word for word, behind the role that said it ... */
  lemma TranscriptReadsWhole(role: string, block: Block)
    ensures block.Text? ==> TranscriptLine(role, BlockText(block)) == "[" + role + "]: " + block.text + "\n"
    ensures block.ToolResult? ==> TranscriptLine(role, BlockText(block)) == "[" + role + "]: " + block.content + "\n"
    ensures Contains(TranscriptLine(role, BlockText(block)), BlockText(block))
  {
    ContainsMiddle("[" + role + "]: ", BlockText(block), "\n");
  }

  /** ... a call by its name and input ... */
  lemma CallIsRead(id: string, name: string, input: string)
    ensures Contains(BlockText(ToolUse(id, name, input)), name)
    ensures Contains(BlockText(ToolUse(id, name, input)), input)
  {
    ContainsBoth("[Tool call: ", name, " with input: ", input, "]");
  }

  lemma ContainsBoth(a: string, b: string, c: string, d: string, e: string)
    ensures Contains(a + b + c + d + e, b) && Contains(a + b + c + d + e, d)
  {
    ContainsMiddle(a + b + c, d, e);
    ContainsMiddle(a, b, c + d + e);
    assert a + b + (c + d + e) == a + b + c + d + e;
  }

  /** ... and a thought by as much of its beginning as two hundred bytes hold. */
  lemma ThoughtIsRead(thinking: string, b: nat)
    requires b <= 200 && b <= |thinking| && IsBoundary(thinking, b)
    ensures Contains(BlockText(Thinking(thinking)), thinking[..b])
  {
    var end := FloorBoundary(thinking, if |thinking| < 200 then |thinking| else 200);
    FloorFindsLast(thinking, if |thinking| < 200 then |thinking| else 200, b);
    assert thinking[..end] == thinking[..b] + thinking[b..end];
    ContainsMiddle("[Thinking: ", thinking[..b], thinking[b..end] + "]");
    assert "[Thinking: " + thinking[..b] + (thinking[b..end] + "]") == "[Thinking: " + thinking[..end] + "]";
  }

  lemma ContainsMiddle(a: string, b: string, c: string)
    ensures Contains(a + b + c, b)
  {
    assert (a + b + c)[|a|..|a| + |b|] == b;
    assert StandsAt(a + b + c, b, |a|);
  }

  /** The same texts with nothing around them. */
  function Bare(read: Reading): Reading {
    Reading(read.text, (role, text) => text)
  }

  lemma {:induction false} RawLengthIsBareBlocks(read: Reading, role: string, blocks: seq<Block>, n: nat)
    requires n <= |blocks|
    ensures RawLength(read, blocks, n) == |RenderBlocks(Bare(read), role, blocks, n)|
  {
    if n > 0 {
      RawLengthIsBareBlocks(read, role, blocks, n - 1);
    }
  }

  /** What the budget is charged is the length of all texts written one after the other. */
  lemma {:induction false} RawLengthIsBareLength(read: Reading, slots: seq<Slot>, n: nat)
    requires n <= |slots|
    ensures RawLengthAll(read, slots, n) == |Render(Bare(read), slots, n)|
  {
    if n > 0 {
      RawLengthIsBareLength(read, slots, n - 1);
      var message := slots[n - 1].message;
      RawLengthIsBareBlocks(read, message.role, message.content, |message.content|);
    }
  }
}
