/** The texts of JSON, after sections 2 to 7 of RFC 8259, as trees with a rendering. */
module JsonGrammar {
  import opened Wrappers

  datatype StringChar =
    | Plain(c: char)
    | Escape(c: char)
    | Unicode(hex: string)

  datatype Exponent = Exponent(e: char, sign: string, digits: string)

  datatype Json =
    | Literal(word: string)
    | Number(minus: bool, whole: string, fraction: Option<string>, exponent: Option<Exponent>)
    | Text(chars: seq<StringChar>)
    | Array(blank: string, items: Items)
    | Object(blank: string, members: Members)

  datatype Items =
    | NoItems
    | Item(before: string, value: Json, after: string, rest: Items)

  datatype Members =
    | NoMembers
    | Member(before: string, key: seq<StringChar>, afterKey: string, beforeValue: string, member: Json,
             afterValue: string, others: Members)

  // ---------------------------------------------------------------------
  // What each production admits
  // ---------------------------------------------------------------------

  predicate IsWhitespace(s: string) {
    forall i :: 0 <= i < |s| ==> s[i] in {' ', '\t', '\n', '\r'}
  }

  predicate IsDigits(s: string) {
    s != "" && forall i :: 0 <= i < |s| ==> '0' <= s[i] <= '9'
  }

  predicate IsHex(s: string) {
    |s| == 4 && forall i :: 0 <= i < |s| ==> '0' <= s[i] <= '9' || 'a' <= s[i] <= 'f' || 'A' <= s[i] <= 'F'
  }

  /** Unescaped: everything but controls, the quotation mark and the backslash. */
  predicate CharOk(c: StringChar) {
    match c
    case Plain(c) => c as int >= 0x20 && c != '"' && c != '\\'
    case Escape(c) => c in {'"', '\\', '/', 'b', 'f', 'n', 'r', 't'}
    case Unicode(hex) => IsHex(hex)
  }

  predicate CharsOk(chars: seq<StringChar>) {
    forall i :: 0 <= i < |chars| ==> CharOk(chars[i])
  }

  predicate NumberOk(n: Json)
    requires n.Number?
  {
    && IsDigits(n.whole) && (n.whole[0] == '0' ==> |n.whole| == 1)
    && (n.fraction.Some? ==> IsDigits(n.fraction.value))
    && (n.exponent.Some? ==>
          && n.exponent.value.e in {'e', 'E'} && n.exponent.value.sign in {"", "+", "-"}
          && IsDigits(n.exponent.value.digits))
  }

  predicate Ok(v: Json) {
    match v
    case Literal(word) => word in {"true", "false", "null"}
    case Number(_, _, _, _) => NumberOk(v)
    case Text(chars) => CharsOk(chars)
    case Array(blank, items) => IsWhitespace(blank) && ItemsOk(items)
    case Object(blank, members) => IsWhitespace(blank) && MembersOk(members)
  }

  predicate ItemsOk(items: Items) {
    match items
    case NoItems => true
    case Item(before, value, after, rest) => IsWhitespace(before) && Ok(value) && IsWhitespace(after) && ItemsOk(rest)
  }

  predicate MembersOk(members: Members) {
    match members
    case NoMembers => true
    case Member(before, key, afterKey, beforeValue, member, afterValue, others) =>
      && IsWhitespace(before) && CharsOk(key) && IsWhitespace(afterKey) && IsWhitespace(beforeValue)
      && Ok(member) && IsWhitespace(afterValue) && MembersOk(others)
  }

  // ---------------------------------------------------------------------
  // The text of a tree
  // ---------------------------------------------------------------------

  function RenderChar(c: StringChar): string {
    match c
    case Plain(c) => [c]
    case Escape(c) => ['\\', c]
    case Unicode(hex) => ['\\', 'u'] + hex
  }

  function RenderChars(chars: seq<StringChar>): string {
    if chars == [] then "" else RenderChar(chars[0]) + RenderChars(chars[1..])
  }

  function RenderText(chars: seq<StringChar>): string {
    ['"'] + RenderChars(chars) + ['"']
  }

  function RenderNumber(n: Json): string
    requires n.Number?
  {
    (if n.minus then ['-'] else []) + n.whole
    + (if n.fraction.Some? then ['.'] + n.fraction.value else [])
    + (if n.exponent.Some? then [n.exponent.value.e] + n.exponent.value.sign + n.exponent.value.digits else [])
  }

  function Render(v: Json): string
    decreases v, 1
  {
    match v
    case Literal(word) => word
    case Number(_, _, _, _) => RenderNumber(v)
    case Text(chars) => RenderText(chars)
    case Array(_, _) => ['['] + Body(v) + [']']
    case Object(_, _) => ['{'] + Body(v) + ['}']
  }

  /** What stands between the outer brackets. */
  function Body(v: Json): string
    requires v.Array? || v.Object?
    decreases v, 0
  {
    if v.Array? then v.blank + RenderItems(v.items) else v.blank + RenderMembers(v.members)
  }

  function RenderItems(items: Items): string {
    match items
    case NoItems => ""
    case Item(before, value, after, rest) =>
      before + Render(value) + after + (if rest.NoItems? then "" else [','] + RenderItems(rest))
  }

  function RenderMembers(members: Members): string {
    match members
    case NoMembers => ""
    case Member(before, key, afterKey, beforeValue, member, afterValue, others) =>
      before + RenderText(key) + afterKey + [':'] + beforeValue + Render(member) + afterValue
      + (if others.NoMembers? then "" else [','] + RenderMembers(others))
  }

  // ---------------------------------------------------------------------
  // Texts as they are written
  // ---------------------------------------------------------------------

  /** The string "]\"\u00e9", its quotation mark escaped. */
  lemma AStringIsWritten()
    ensures RenderText([Plain(']'), Escape('"'), Unicode("00e9")]) == "\"]\\\"\\u00e9\""
  {
    var chars := [Plain(']'), Escape('"'), Unicode("00e9")];
    assert chars[1..] == [Escape('"'), Unicode("00e9")] && chars[1..][1..] == [Unicode("00e9")] && chars[1..][1..][1..] == [];
    assert RenderChars(chars[1..][1..]) == "\\u00e9";
    assert RenderChars(chars[1..]) == "\\\"" + "\\u00e9";
  }

  lemma NumbersAreWritten()
    ensures RenderNumber(Number(true, "12", Some("50"), Some(Exponent('e', "+", "3")))) == "-12.50e+3"
    ensures RenderNumber(Number(false, "0", None, None)) == "0"
  {
  }

  /** Items stand between square brackets with commas between them. */
  lemma ItemsAreWritten(blank: string, b1: string, v1: Json, a1: string, b2: string, v2: Json, a2: string)
    ensures Render(Array(blank, NoItems)) == "[" + blank + "]"
    ensures Render(Array(blank, Item(b1, v1, a1, Item(b2, v2, a2, NoItems)))) ==
              "[" + (blank + (b1 + Render(v1) + a1 + ("," + (b2 + Render(v2) + a2)))) + "]"
  {
    assert RenderItems(NoItems) == "" && blank + "" == blank;
    var second := Item(b2, v2, a2, NoItems);
    assert RenderItems(second) == b2 + Render(v2) + a2 + "" == b2 + Render(v2) + a2;
    assert RenderItems(Item(b1, v1, a1, second)) == b1 + Render(v1) + a1 + ("," + RenderItems(second));
  }

  /** Members stand between braces, each with its name, a colon and its value. */
  lemma MembersAreWritten(blank: string, b1: string, k1: seq<StringChar>, c1: string, d1: string, v1: Json, a1: string,
                          others: Members)
    ensures Render(Object(blank, NoMembers)) == "{" + blank + "}"
    ensures Render(Object(blank, Member(b1, k1, c1, d1, v1, a1, others))) ==
              "{" + (blank + (b1 + RenderText(k1) + c1 + ":" + d1 + Render(v1) + a1
                              + (if others.NoMembers? then "" else "," + RenderMembers(others)))) + "}"
  {
    assert RenderMembers(NoMembers) == "" && blank + "" == blank;
    var members := Member(b1, k1, c1, d1, v1, a1, others);
    assert RenderMembers(members) == b1 + RenderText(k1) + c1 + ":" + d1 + Render(v1) + a1
                                     + (if others.NoMembers? then "" else "," + RenderMembers(others));
  }
}
