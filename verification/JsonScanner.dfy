/**
  Finding JSON inside a model's answer (extract_json).

  The scanner counts only the bracket it started with and steps over string
  literals; the theorem is that this is enough for every JSON text.
 */
module JsonScanner {
  import opened Wrappers
  import opened JsonGrammar
  import opened Utf8

  /** depth counts the opening bracket; the flags are in_string and escaped. */
  datatype State = State(depth: nat, inString: bool, escaped: bool)

  const START := State(0, false, false)

  datatype Step = Continue(state: State) | Finished

  function Closer(open: char): char {
    if open == '[' then ']' else '}'
  }

  predicate IsBracket(c: char) {
    c == '[' || c == '{'
  }

  /** One byte.  A closing bracket at depth 0 would underflow the counter; see NeverUnderflows. */
  function Next(open: char, st: State, c: char): Step {
    if st.inString then
      if st.escaped then Continue(st.(escaped := false))
      else if c == '\\' then Continue(st.(escaped := true))
      else if c == '"' then Continue(st.(inString := false))
      else Continue(st)
    else if c == '"' then Continue(st.(inString := true))
    else if c == open then Continue(st.(depth := st.depth + 1))
    else if c == Closer(open) then (if st.depth <= 1 then Finished else Continue(st.(depth := st.depth - 1)))
    else Continue(st)
  }

  /** The state after all of s, or Finished if the scan ends within s. */
  function Scan(open: char, st: State, s: string): Step
    decreases |s|
  {
    if s == "" then Continue(st)
    else match Next(open, st, s[0])
      case Finished => Finished
      case Continue(next) => Scan(open, next, s[1..])
  }

  lemma {:induction false} ScanConcat(open: char, st: State, a: string, b: string)
    requires Scan(open, st, a).Continue?
    ensures Scan(open, st, a + b) == Scan(open, Scan(open, st, a).state, b)
    decreases |a|
  {
    if a == "" {
      assert a + b == b;
    } else {
      assert (a + b)[1..] == a[1..] + b;
      ScanConcat(open, Next(open, st, a[0]).state, a[1..], b);
    }
  }

  /** The scan of s ends exactly at its n-th byte. */
  predicate EndsAt(open: char, s: string, n: nat) {
    && 0 < n <= |s|
    && Scan(open, START, s[..n - 1]).Continue?
    && Next(open, Scan(open, START, s[..n - 1]).state, s[n - 1]).Finished?
  }

  // ---------------------------------------------------------------------
  // JSON texts are transparent to the scan
  // ---------------------------------------------------------------------

  /** Scanning s outside strings at this depth changes nothing and does not end. */
  predicate Transparent(open: char, depth: nat, s: string) {
    Scan(open, State(depth, false, false), s) == Continue(State(depth, false, false))
  }

  lemma TransparentConcat(open: char, depth: nat, a: string, b: string)
    requires Transparent(open, depth, a) && Transparent(open, depth, b)
    ensures Transparent(open, depth, a + b)
  {
    ScanConcat(open, State(depth, false, false), a, b);
  }

  /** No bracket, quotation mark or backslash. */
  predicate IsInert(s: string) {
    forall i :: 0 <= i < |s| ==> s[i] !in {'[', ']', '{', '}', '"', '\\'}
  }

  lemma {:induction false} InertIsTransparent(open: char, depth: nat, s: string)
    requires IsBracket(open) && IsInert(s)
    ensures Transparent(open, depth, s)
    decreases |s|
  {
    if s != "" {
      InertIsTransparent(open, depth, s[1..]);
    }
  }

  /** Inside a literal every character of it is stepped over, escaped quotes included. */
  lemma {:induction false} CharsStayInside(open: char, depth: nat, chars: seq<StringChar>)
    requires CharsOk(chars)
    ensures Scan(open, State(depth, true, false), RenderChars(chars)) == Continue(State(depth, true, false))
    decreases |chars|
  {
    if chars != [] {
      var st := State(depth, true, false);
      var first := RenderChar(chars[0]);
      assert CharOk(chars[0]);
      CharStaysInside(open, depth, chars[0]);
      CharsStayInside(open, depth, chars[1..]);
      ScanConcat(open, st, first, RenderChars(chars[1..]));
    }
  }

  lemma CharStaysInside(open: char, depth: nat, c: StringChar)
    requires CharOk(c)
    ensures Scan(open, State(depth, true, false), RenderChar(c)) == Continue(State(depth, true, false))
  {
    var st := State(depth, true, false);
    match c
    case Plain(_) =>
      assert RenderChar(c)[1..] == "";
    case Escape(x) =>
      assert RenderChar(c)[1..] == [x];
      assert [x][1..] == "";
    case Unicode(hex) =>
      assert RenderChar(c)[1..] == ['u'] + hex;
      assert (['u'] + hex)[1..] == hex;
      HexStaysInside(open, depth, hex);
  }

  lemma {:induction false} HexStaysInside(open: char, depth: nat, hex: string)
    requires forall i :: 0 <= i < |hex| ==> hex[i] != '"' && hex[i] != '\\'
    ensures Scan(open, State(depth, true, false), hex) == Continue(State(depth, true, false))
    decreases |hex|
  {
    if hex != "" {
      HexStaysInside(open, depth, hex[1..]);
    }
  }

  lemma TextIsTransparent(open: char, depth: nat, chars: seq<StringChar>)
    requires IsBracket(open) && CharsOk(chars)
    ensures Transparent(open, depth, RenderText(chars))
  {
    var inside := State(depth, true, false);
    var body := RenderChars(chars);
    CharsStayInside(open, depth, chars);
    ScanConcat(open, inside, body, ['"']);
    assert ['"'][1..] == "";
    assert RenderText(chars) == ['"'] + (body + ['"']);
    assert (['"'] + (body + ['"']))[1..] == body + ['"'];
  }

  lemma NumberIsInert(v: Json)
    requires v.Number? && NumberOk(v)
    ensures IsInert(RenderNumber(v))
  {
  }

  /** Every JSON value leaves the scan where it was, at any depth of at least one. */
  lemma {:induction false} ValueIsTransparent(open: char, depth: nat, v: Json)
    requires IsBracket(open) && Ok(v) && depth > 0
    ensures Transparent(open, depth, Render(v))
    decreases v, 1
  {
    match v
    case Literal(word) =>
      InertIsTransparent(open, depth, word);
    case Number(_, _, _, _) =>
      NumberIsInert(v);
      InertIsTransparent(open, depth, RenderNumber(v));
    case Text(chars) =>
      TextIsTransparent(open, depth, chars);
    case Array(_, _) =>
      BodyIsTransparent(open, Inner(open, '[', depth), v);
      BracketsAreTransparent(open, depth, '[', Body(v));
    case Object(_, _) =>
      BodyIsTransparent(open, Inner(open, '{', depth), v);
      BracketsAreTransparent(open, depth, '{', Body(v));
  }

  /** The depth inside a bracket: one more only if it is the bracket being counted. */
  function Inner(open: char, bracket: char, depth: nat): nat {
    if bracket == open then depth + 1 else depth
  }

  lemma {:induction false} BodyIsTransparent(open: char, depth: nat, v: Json)
    requires IsBracket(open) && Ok(v) && depth > 0 && (v.Array? || v.Object?)
    ensures Transparent(open, depth, Body(v))
    decreases v, 0
  {
    InertIsTransparent(open, depth, v.blank);
    if v.Array? {
      ItemsAreTransparent(open, depth, v.items);
      TransparentConcat(open, depth, v.blank, RenderItems(v.items));
    } else {
      MembersAreTransparent(open, depth, v.members);
      TransparentConcat(open, depth, v.blank, RenderMembers(v.members));
    }
  }

  lemma BracketsAreTransparent(open: char, depth: nat, bracket: char, body: string)
    requires IsBracket(open) && IsBracket(bracket) && depth > 0
    requires Transparent(open, Inner(open, bracket, depth), body)
    ensures Transparent(open, depth, [bracket] + body + [Closer(bracket)])
  {
    var inner := State(Inner(open, bracket, depth), false, false);
    ScanConcat(open, inner, body, [Closer(bracket)]);
    assert [Closer(bracket)][1..] == "";
    assert [bracket] + body + [Closer(bracket)] == [bracket] + (body + [Closer(bracket)]);
    assert ([bracket] + (body + [Closer(bracket)]))[1..] == body + [Closer(bracket)];
  }

  lemma CommaThen(open: char, depth: nat, rest: string)
    requires IsBracket(open) && Transparent(open, depth, rest)
    ensures Transparent(open, depth, [','] + rest)
  {
  }

  lemma {:induction false} ItemsAreTransparent(open: char, depth: nat, items: Items)
    requires IsBracket(open) && ItemsOk(items) && depth > 0
    ensures Transparent(open, depth, RenderItems(items))
    decreases items
  {
    if items.Item? {
      InertIsTransparent(open, depth, items.before);
      ValueIsTransparent(open, depth, items.value);
      InertIsTransparent(open, depth, items.after);
      TransparentConcat(open, depth, items.before, Render(items.value));
      TransparentConcat(open, depth, items.before + Render(items.value), items.after);
      var head := items.before + Render(items.value) + items.after;
      if items.rest.Item? {
        ItemsAreTransparent(open, depth, items.rest);
        CommaThen(open, depth, RenderItems(items.rest));
        TransparentConcat(open, depth, head, [','] + RenderItems(items.rest));
        assert RenderItems(items) == head + ([','] + RenderItems(items.rest));
      } else {
        assert RenderItems(items) == head + "" == head;
      }
    }
  }

  lemma {:induction false} MembersAreTransparent(open: char, depth: nat, members: Members)
    requires IsBracket(open) && MembersOk(members) && depth > 0
    ensures Transparent(open, depth, RenderMembers(members))
    decreases members
  {
    match members
    case NoMembers =>
    case Member(before, key, afterKey, beforeValue, member, afterValue, others) =>
      InertIsTransparent(open, depth, before);
      TextIsTransparent(open, depth, key);
      InertIsTransparent(open, depth, afterKey);
      InertIsTransparent(open, depth, [':']);
      InertIsTransparent(open, depth, beforeValue);
      ValueIsTransparent(open, depth, member);
      InertIsTransparent(open, depth, afterValue);
      var a := before + RenderText(key);
      TransparentConcat(open, depth, before, RenderText(key));
      TransparentConcat(open, depth, a, afterKey);
      TransparentConcat(open, depth, a + afterKey, [':']);
      var b := a + afterKey + [':'];
      TransparentConcat(open, depth, b, beforeValue);
      TransparentConcat(open, depth, b + beforeValue, Render(member));
      var c := b + beforeValue + Render(member);
      TransparentConcat(open, depth, c, afterValue);
      if others.Member? {
        MembersAreTransparent(open, depth, others);
        CommaThen(open, depth, RenderMembers(others));
        TransparentConcat(open, depth, c + afterValue, [','] + RenderMembers(others));
        assert RenderMembers(members) == c + afterValue + ([','] + RenderMembers(others));
      } else {
        assert RenderMembers(members) == c + afterValue + "" == c + afterValue;
      }
  }

  // ---------------------------------------------------------------------
  // The scanner
  // ---------------------------------------------------------------------

  /** The counter is at least one from the first byte on, so closing never underflows it. */
  lemma {:induction false} NeverUnderflows(open: char, s: string)
    requires IsBracket(open) && s != "" && s[0] == open
    requires Scan(open, START, s).Continue?
    ensures Scan(open, START, s).state.depth >= 1
    decreases |s|
  {
    var n := |s| - 1;
    if n == 0 {
      assert s[1..] == "";
    } else {
      assert s == s[..n] + [s[n]];
      ScanSplit(open, START, s[..n], [s[n]]);
      NeverUnderflows(open, s[..n]);
      assert [s[n]][1..] == "";
    }
  }

  /** A scan that gets through a + b gets through a. */
  lemma {:induction false} ScanSplit(open: char, st: State, a: string, b: string)
    requires Scan(open, st, a + b).Continue?
    ensures Scan(open, st, a).Continue?
    ensures Scan(open, Scan(open, st, a).state, b) == Scan(open, st, a + b)
    decreases |a|
  {
    if a == "" {
      assert a + b == b;
    } else {
      assert (a + b)[1..] == a[1..] + b;
      ScanSplit(open, Next(open, st, a[0]).state, a[1..], b);
    }
  }

  lemma ScanOneMore(open: char, s: string, n: nat)
    requires n < |s| && Scan(open, START, s[..n]).Continue?
    ensures Scan(open, START, s[..n + 1]) == Next(open, Scan(open, START, s[..n]).state, s[n])
  {
    assert s[..n + 1] == s[..n] + [s[n]];
    ScanConcat(open, START, s[..n], [s[n]]);
    assert [s[n]][1..] == "";
  }

  /** A scan that gets through all of s ends nowhere in s. */
  lemma NoEndIfScanned(open: char, s: string, n: nat)
    requires Scan(open, START, s).Continue?
    ensures !EndsAt(open, s, n)
  {
    if EndsAt(open, s, n) {
      ScanOneMore(open, s, n - 1);
      assert s == s[..n] + s[n..];
      ScanSplit(open, START, s[..n], s[n..]);
    }
  }

  /** The end of a scan is unique. */
  lemma EndIsUnique(open: char, s: string, m: nat, n: nat)
    requires EndsAt(open, s, m) && EndsAt(open, s, n)
    ensures m == n
  {
    if m < n {
      assert s[..n - 1][..m - 1] == s[..m - 1];
      NoEndIfScanned(open, s[..n - 1], m);
    } else if n < m {
      assert s[..m - 1][..n - 1] == s[..n - 1];
      NoEndIfScanned(open, s[..m - 1], n);
    }
  }

  predicate IsFirstBracket(text: string, start: nat) {
    start < |text| && IsBracket(text[start]) && forall i :: 0 <= i < start ==> !IsBracket(text[i])
  }

  /** r is the span from the first bracket to where its scan ends. */
  ghost predicate IsExtracted(text: string, r: string) {
    exists start: nat :: IsExtractedAt(text, start, r)
  }

  predicate IsExtractedAt(text: string, start: nat, r: string) {
    && IsFirstBracket(text, start)
    && start + |r| <= |text| && r == text[start..start + |r|]
    && EndsAt(text[start], text[start..], |r|)
  }

  /** Extraction starts at the first bracket and nowhere else. */
  lemma NoOtherStart(text: string, start: nat, r: string)
    requires IsFirstBracket(text, start)
    ensures IsExtracted(text, r) ==> IsExtractedAt(text, start, r)
  {
  }

  lemma ExtractedOnce(text: string, r: string, s: string)
    requires IsExtracted(text, r) && IsExtracted(text, s)
    ensures r == s
  {
    var i: nat :| IsExtractedAt(text, i, r);
    var j: nat :| IsExtractedAt(text, j, s);
    assert i == j by {
      assert IsFirstBracket(text, i) && IsFirstBracket(text, j);
    }
    EndIsUnique(text[i], text[i..], |r|, |s|);
  }

  method ExtractJson(text: string) returns (r: Option<string>)
    requires IsText(text)
    ensures r.Some? ==> IsExtracted(text, r.value)
    ensures r.None? ==> forall s :: !IsExtracted(text, s)
  {
    var start := 0;
    while start < |text| && !IsBracket(text[start])
      invariant start <= |text|
      invariant forall i :: 0 <= i < start ==> !IsBracket(text[i])
    {
      start := start + 1;
    }
    if start == |text| {
      return None;
    }
    var open := text[start];
    var close := Closer(open);
    var depth, inString, escaped := 0, false, false;
    ghost var rest := text[start..];
    for offset := 0 to |text| - start
      invariant rest == text[start..] && |rest| == |text| - start
      invariant depth >= 0 && (offset > 0 ==> depth >= 1)
      invariant Scan(open, START, rest[..offset]) == Continue(State(depth, inString, escaped))
    {
      var byte := text[start + offset];
      ScanOneMore(open, rest, offset);
      if inString {
        if escaped {
          escaped := false;
        } else if byte == '\\' {
          escaped := true;
        } else if byte == '"' {
          inString := false;
        }
        continue;
      }
      if byte == '"' {
        inString := true;
      } else if byte == open {
        depth := depth + 1;
      } else if byte == close {
        depth := depth - 1;
        if depth == 0 {
          var end := start + offset + 1;
          assert text[start..end] == rest[..offset + 1];
          assert EndsAt(open, rest, offset + 1);
          assert IsExtractedAt(text, start, text[start..end]);
          return if IsBoundary(text, start) && IsBoundary(text, end) then Some(text[start..end]) else None;
        }
      }
    }
    assert rest[..|text| - start] == rest;
    forall s ensures !IsExtracted(text, s) {
      NoEndIfScanned(open, rest, |s|);
      NoOtherStart(text, start, s);
    }
    return None;
  }

  /**
    The scanner recovers exactly the JSON it looks for: in prefix + s + suffix, where
    s is the text of any JSON array or object and the prefix holds no opening bracket,
    the extracted span is s.  Brackets of either kind inside s, brackets inside its
    strings and escaped quotes do not end it early, whatever the suffix is.
   */
  lemma ExtractsExactlyTheJson(before: string, v: Json, after: string)
    requires Ok(v) && (v.Array? || v.Object?)
    requires forall i :: 0 <= i < |before| ==> !IsBracket(before[i])
    ensures IsExtracted(before + Render(v) + after, Render(v))
    ensures forall r :: IsExtracted(before + Render(v) + after, r) ==> r == Render(v)
  {
    var text := before + Render(v) + after;
    var open := Render(v)[0];
    var body := Body(v);
    var n := |Render(v)|;
    assert Render(v) == [open] + body + [Closer(open)];
    var rest := text[|before|..];
    assert rest == Render(v) + after;
    BodyIsTransparent(open, 1, v);
    assert ([open] + body)[1..] == body;
    assert Scan(open, START, [open] + body) == Continue(State(1, false, false));
    assert rest[..n - 1] == [open] + body;
    assert EndsAt(open, rest, n);
    assert text[|before|..|before| + n] == Render(v);
    assert IsExtractedAt(text, |before|, Render(v));
    forall r | IsExtracted(text, r) ensures r == Render(v) {
      ExtractedOnce(text, r, Render(v));
    }
  }
}
