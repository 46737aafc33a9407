/** Shrinking oversized blocks in place: the last resort once nothing may be removed. */
module BlockTruncation {
  import opened Utf8
  import opened Messages

  const MIN_BLOCK_CHARS: nat := 100

  function TruncationMark(dropped: nat): string {
    "\n\n[... truncated " + Decimal(dropped) + " chars to fit context limit ...]"
  }

  /** The longest prefix within the cap that ends on a character boundary, and a count of the rest. */
  function TruncateText(text: string, maxChars: nat): string {
    if |text| <= maxChars then text
    else
      var end := FloorBoundary(text, maxChars);
      text[..end] + TruncationMark(|text| - end)
  }

  function TruncateBlock(block: Block, maxChars: nat): Block {
    match block
    case ToolResult(id, content, isError) => ToolResult(id, TruncateText(content, maxChars), isError)
    case Text(text) => Text(TruncateText(text, maxChars))
    case _ => block
  }

  predicate IsOversized(block: Block) {
    match block
    case ToolResult(_, content, _) => |content| > MIN_BLOCK_CHARS
    case Text(text) => |text| > MIN_BLOCK_CHARS
    case _ => false
  }

  function CountOversized(blocks: seq<Block>): nat {
    if blocks == [] then 0 else (if IsOversized(blocks[0]) then 1 else 0) + CountOversized(blocks[1..])
  }

  function CountOversizedIn(slots: seq<Slot>): nat {
    if slots == [] then 0 else CountOversized(slots[0].message.content) + CountOversizedIn(slots[1..])
  }

  /** An equal share of the budget for each oversized block, never below the floor. */
  function MaxBlockChars(budgetChars: nat, slots: seq<Slot>): nat {
    var oversized := if CountOversizedIn(slots) == 0 then 1 else CountOversizedIn(slots);
    if budgetChars / oversized < MIN_BLOCK_CHARS then MIN_BLOCK_CHARS else budgetChars / oversized
  }

  /** b comes from a by capping block texts; identity, order, roles and block kinds stay. */
  predicate TruncatedFrom(a: seq<Slot>, b: seq<Slot>, maxChars: nat) {
    && |a| == |b|
    && forall i :: 0 <= i < |a| ==> SlotTruncated(a[i], b[i], maxChars)
  }

  predicate SlotTruncated(a: Slot, b: Slot, maxChars: nat) {
    && a.uid == b.uid && a.message.role == b.message.role
    && |a.message.content| == |b.message.content|
    && forall j :: 0 <= j < |a.message.content| ==> b.message.content[j] == TruncateBlock(a.message.content[j], maxChars)
  }

  /** Every block of every message in turn. */
  method TruncateBlocks(slots: seq<Slot>, maxChars: nat) returns (r: seq<Slot>)
    ensures TruncatedFrom(slots, r, maxChars)
  {
    r := slots;
    for i := 0 to |slots|
      invariant |r| == |slots|
      invariant forall m :: 0 <= m < i ==> SlotTruncated(slots[m], r[m], maxChars)
      invariant forall m :: i <= m < |slots| ==> r[m] == slots[m]
    {
      var blocks := slots[i].message.content;
      for j := 0 to |blocks|
        invariant |blocks| == |slots[i].message.content|
        invariant forall m :: 0 <= m < j ==> blocks[m] == TruncateBlock(slots[i].message.content[m], maxChars)
        invariant forall m :: j <= m < |blocks| ==> blocks[m] == slots[i].message.content[m]
      {
        blocks := blocks[j := TruncateBlock(blocks[j], maxChars)];
      }
      r := r[i := Slot(slots[i].uid, Message(slots[i].message.role, blocks))];
    }
  }

  // ---------------------------------------------------------------------
  // What the cap does
  // ---------------------------------------------------------------------

  /** Text within the cap stays; longer text keeps its longest prefix within the cap, and the mark counts the rest. */
  lemma CappedText(text: string, maxChars: nat) returns (kept: nat)
    ensures |text| <= maxChars ==> TruncateText(text, maxChars) == text && kept == |text|
    ensures maxChars < |text| ==>
              && kept <= maxChars && IsBoundary(text, kept)
              && (forall b: nat :: b <= maxChars && IsBoundary(text, b) ==> b <= kept)
              && TruncateText(text, maxChars) ==
                   text[..kept] + "\n\n[... truncated " + Decimal(|text| - kept) + " chars to fit context limit ...]"
  {
    kept := if |text| <= maxChars then |text| else FloorBoundary(text, maxChars);
    forall b: nat | b <= maxChars < |text| && IsBoundary(text, b) ensures b <= kept {
      FloorFindsLast(text, maxChars, b);
    }
  }

  /** Only the words of texts and results change: ids, error flags, calls, thoughts and images do not. */
  lemma CappedBlock(block: Block, maxChars: nat)
    ensures var capped := TruncateBlock(block, maxChars);
      && (block.Text? ==> capped == Text(TruncateText(block.text, maxChars)))
      && (block.ToolResult? ==>
            && capped.ToolResult? && capped.toolUseId == block.toolUseId && capped.isError == block.isError
            && capped.content == TruncateText(block.content, maxChars))
      && (!block.Text? && !block.ToolResult? ==> capped == block)
  {
  }

  /** How many of these are texts or results of more than a hundred bytes. */
  lemma {:induction false} OversizedAdd(a: seq<Block>, b: seq<Block>)
    ensures CountOversized(a + b) == CountOversized(a) + CountOversized(b)
  {
    if a == [] {
      assert a + b == b;
    } else {
      assert (a + b)[0] == a[0] && (a + b)[1..] == a[1..] + b;
      OversizedAdd(a[1..], b);
    }
  }

  lemma {:induction false} OversizedInAdd(a: seq<Slot>, b: seq<Slot>)
    ensures CountOversizedIn(a + b) == CountOversizedIn(a) + CountOversizedIn(b)
  {
    if a == [] {
      assert a + b == b;
    } else {
      assert (a + b)[0] == a[0] && (a + b)[1..] == a[1..] + b;
      OversizedInAdd(a[1..], b);
    }
  }

  lemma OneOversized(slot: Slot, block: Block)
    requires slot.message.content == [block]
    ensures CountOversizedIn([slot]) ==
              if (block.Text? && |block.text| > 100) || (block.ToolResult? && |block.content| > 100) then 1 else 0
  {
    assert [slot][1..] == [] && [block][1..] == [];
    assert CountOversizedIn([slot]) == CountOversized([block]) + CountOversizedIn([]);
    assert CountOversized([block]) == (if IsOversized(block) then 1 else 0) + CountOversized([]);
  }

  /** All oversized blocks at their share stay within the budget, and no larger share would, above the floor of a hundred. */
  lemma SharesFitTheBudget(budgetChars: nat, slots: seq<Slot>)
    ensures var share, count := MaxBlockChars(budgetChars, slots), CountOversizedIn(slots);
      && share >= 100
      && (share > 100 ==> share * count <= budgetChars)
      && (count > 0 ==> budgetChars < (share + 1) * count)
      && (count == 0 ==> share == if budgetChars < 100 then 100 else budgetChars)
  {
    var count := CountOversizedIn(slots);
    if count > 0 {
      DivideBudget(budgetChars, count);
      ShareBounds(budgetChars, count, budgetChars / count);
    }
  }

  lemma DivideBudget(budget: nat, count: nat)
    requires count > 0
    ensures budget / count * count <= budget < (budget / count + 1) * count
  {
  }

  lemma ShareBounds(budget: nat, count: nat, even: nat)
    requires even * count <= budget < (even + 1) * count
    ensures even < 100 ==> budget < 101 * count
  {
    if even < 100 {
      TimesGrows(even + 1, 101, count);
    }
  }

  lemma TimesGrows(a: nat, b: nat, c: nat)
    requires a <= b
    ensures a * c <= b * c
  {
  }
}
