/**
 The canonical text is JSON text (RFC 8259) for the value it was made from: a reader that knows
 the grammar, and nothing of the serializer, finds the value in it, with ascending keys.
 */
module JsonText {
  import opened Wrappers
  import opened Utf16
  import opened CanonicalJson
  import opened CanonicalJsonFaithful

  // ----- Strings, RFC 8259 section 7 -----

  /** The character a letter after a backslash stands for. */
  function ShortMeaning(c: CodeUnit): Option<CodeUnit> {
    if c == 34 || c == 92 || c == 47 then Some(c)
    else if c == 98 then Some(8)
    else if c == 102 then Some(12)
    else if c == 110 then Some(10)
    else if c == 114 then Some(13)
    else if c == 116 then Some(9)
    else None
  }

  function HexMeaning(c: CodeUnit): Option<nat> {
    if 48 <= c <= 57 then Some(c - 48)
    else if 65 <= c <= 70 then Some(c - 55)
    else if 97 <= c <= 102 then Some(c - 87)
    else None
  }

  function Hex4(t: Text): Option<CodeUnit>
    requires |t| == 4
  {
    var a, b, c, d := HexMeaning(t[0]), HexMeaning(t[1]), HexMeaning(t[2]), HexMeaning(t[3]);
    if a.None? || b.None? || c.None? || d.None? then None
    else Some(0x1000 * a.value + 0x100 * b.value + 16 * c.value + d.value)
  }

  /** What stands between the quotes, read: None when it is no string body. */
  function Unquoted(t: Text): Option<Text>
    decreases |t|
  {
    if t == [] then Some([])
    else if t[0] == 92 then
      if |t| >= 6 && t[1] == 117 then Then(Hex4(t[2..6]), Unquoted(t[6..]))
      else if |t| >= 2 then Then(ShortMeaning(t[1]), Unquoted(t[2..]))
      else None
    else if t[0] == 34 || t[0] < 32 then None
    else Then(Some(t[0]), Unquoted(t[1..]))
  }

  function Then(c: Option<CodeUnit>, rest: Option<Text>): Option<Text> {
    if c.None? || rest.None? then None else Some([c.value] + rest.value)
  }

  lemma {:induction false} PlainReads(c: CodeUnit, rest: Text)
    requires c >= 32 && c != 34 && c != 92
    ensures Unquoted([c] + rest) == Then(Some(c), Unquoted(rest))
  {
    assert ([c] + rest)[1..] == rest;
  }

  lemma {:induction false} HexReads(n: nat)
    requires n < 16
    ensures HexMeaning(HexDigit(n)) == Some(n)
  {
  }

  lemma {:induction false} UnicodeReads(c: CodeUnit, rest: Text)
    ensures Unquoted(UnicodeEscape(c) + rest) == Then(Some(c), Unquoted(rest))
  {
    var t := UnicodeEscape(c) + rest;
    assert t[6..] == rest;
    assert t[2..6] == [HexDigit(c / 0x1000), HexDigit(c / 0x100 % 16), HexDigit(c / 16 % 16), HexDigit(c % 16)];
    HexReads(c / 0x1000);
    HexReads(c / 0x100 % 16);
    HexReads(c / 16 % 16);
    HexReads(c % 16);
    HexDecompose(c);
  }

  lemma {:induction false} ShortReads(c: CodeUnit, rest: Text)
    requires ShortEscape(c) != 0
    ensures Unquoted([BACKSLASH, ShortEscape(c)] + rest) == Then(Some(c), Unquoted(rest))
  {
    var t := [BACKSLASH, ShortEscape(c)] + rest;
    assert t[2..] == rest && ShortEscape(c) != 117;
  }

  lemma {:induction false} EscapeReads(c: CodeUnit, rest: Text)
    ensures Unquoted(Escape(c) + rest) == Then(Some(c), Unquoted(rest))
  {
    if ShortEscape(c) != 0 {
      ShortReads(c, rest);
    } else if c < 32 || IsHighSurrogate(c) || IsLowSurrogate(c) {
      UnicodeReads(c, rest);
    } else {
      PlainReads(c, rest);
    }
  }

  /** Reading a quoted body gives the string back. */
  lemma {:induction false} BodyReads(s: Text)
    ensures Unquoted(QuoteBody(s)) == Some(s)
    decreases |s|
  {
    if s != [] {
      var n := ChunkSize(s);
      BodyReads(s[n..]);
      if n == 2 {
        assert s[..2] + QuoteBody(s[2..]) == [s[0]] + ([s[1]] + QuoteBody(s[2..]));
        PlainReads(s[1], QuoteBody(s[2..]));
        PlainReads(s[0], [s[1]] + QuoteBody(s[2..]));
        assert s == [s[0]] + ([s[1]] + s[2..]);
      } else {
        EscapeReads(s[0], QuoteBody(s[1..]));
        assert s == [s[0]] + s[1..];
      }
    }
  }

  /**
   QuoteJSONString (ECMA-262, section 25.5.2.3) escapes only what it must: controls, the quote, the
   backslash and lone surrogates, with the short forms where there are any.
   */
  lemma {:induction false} EscapedExactly(c: CodeUnit)
    ensures |Escape(c)| == 1 <==> 0x20 <= c && c != 0x22 && c != 0x5C && !(0xD800 <= c <= 0xDFFF)
    ensures |Escape(c)| == 2 <==> c in {0x08, 0x09, 0x0A, 0x0C, 0x0D, 0x22, 0x5C}
    ensures Unquoted(Escape(c)) == Some([c])
  {
    EscapeReads(c, []);
    assert Escape(c) + [] == Escape(c) && [c] + [] == [c];
  }

  /** A surrogate pair is written as it is. */
  lemma {:induction false} PairsStay(high: CodeUnit, low: CodeUnit, rest: Text)
    requires 0xD800 <= high <= 0xDBFF && 0xDC00 <= low <= 0xDFFF
    ensures QuoteBody([high, low] + rest) == [high, low] + QuoteBody(rest)
  {
    var s := [high, low] + rest;
    assert s[..2] == [high, low] && s[2..] == rest;
  }

  // ----- Values -----

  /** The parts with commas between them. */
  function Commas(parts: seq<Text>): Text {
    if parts == [] then []
    else if |parts| == 1 then parts[0]
    else parts[0] + [44] + Commas(parts[1..])
  }

  ghost predicate IsString(t: Text, s: Text) {
    |t| >= 2 && t[0] == 34 && t[|t| - 1] == 34 && Unquoted(t[1..|t| - 1]) == Some(s)
  }

  /** t is a JSON text of v, without white space; the members of an object come in ascending key order. */
  ghost predicate IsText(t: Text, v: Json)
    decreases v, 1
  {
    match v
    case Null => t == [110, 117, 108, 108]
    case Bool(b) => t == if b then [116, 114, 117, 101] else [102, 97, 108, 115, 101]
    case Number(literal) => t == literal
    case String(s) => IsString(t, s)
    case Array(items) => exists parts :: AreItems(parts, items, v) && t == [91] + Commas(parts) + [93]
    case Object(members) =>
      exists sorted, parts :: IsSorting(sorted, members) && AreMembers(parts, sorted, v) && t == [123] + Commas(parts) + [125]
  }

  ghost predicate AreItems(parts: seq<Text>, items: seq<Json>, whole: Json)
    requires whole.Array? && items == whole.items
    decreases whole, 0
  {
    |parts| == |items| && forall i :: 0 <= i < |items| ==> IsText(parts[i], items[i])
  }

  /** The same members, in ascending order of their keys. */
  ghost predicate IsSorting(sorted: seq<Member>, members: seq<Member>) {
    multiset(sorted) == multiset(members) && Ascending(sorted)
  }

  ghost predicate AreMembers(parts: seq<Text>, sorted: seq<Member>, whole: Json)
    requires whole.Object? && IsSorting(sorted, whole.members)
    decreases whole, 0
  {
    SameMembers(sorted, whole.members);
    |parts| == |sorted| && forall i :: 0 <= i < |sorted| ==>
      sorted[i] in whole.members && exists key, value :: parts[i] == key + [58] + value && IsString(key, sorted[i].key) && IsText(value, sorted[i].value)
  }

  lemma {:induction false} SameMembers(sorted: seq<Member>, members: seq<Member>)
    requires multiset(sorted) == multiset(members)
    ensures forall i :: 0 <= i < |sorted| ==> sorted[i] in members
  {
    forall i | 0 <= i < |sorted|
      ensures sorted[i] in members
    {
      assert sorted[i] in multiset(sorted);
    }
  }

  lemma {:induction false} QuoteIsString(s: Text)
    ensures IsString(Quote(s), s)
  {
    BodyReads(s);
    assert Quote(s)[1..|Quote(s)| - 1] == QuoteBody(s);
  }

  function ItemTexts(items: seq<Json>): (parts: seq<Text>)
    ensures |parts| == |items| && forall i :: 0 <= i < |items| ==> parts[i] == Stable(items[i])
  {
    seq(|items|, i requires 0 <= i < |items| => Stable(items[i]))
  }

  lemma {:induction false} ItemsAreCommas(items: seq<Json>)
    ensures StableItems(items) == Commas(ItemTexts(items))
  {
    if |items| > 1 {
      ItemsAreCommas(items[1..]);
      assert ItemTexts(items)[1..] == ItemTexts(items[1..]);
      assert Stable(items[0]) + ([44] + StableItems(items[1..])) == Stable(items[0]) + [44] + StableItems(items[1..]);
    }
  }

  function MemberText(m: Member): Text {
    Quote(m.key) + [COLON] + Stable(m.value)
  }

  function MemberTexts(ms: seq<Member>): (parts: seq<Text>)
    ensures |parts| == |ms| && forall i :: 0 <= i < |ms| ==> parts[i] == MemberText(ms[i])
  {
    seq(|ms|, i requires 0 <= i < |ms| => MemberText(ms[i]))
  }

  lemma {:induction false} MembersAreCommas(ms: seq<Member>, whole: Json)
    requires forall i :: 0 <= i < |ms| ==> ms[i].value < whole
    ensures StableMembers(ms, whole) == Commas(MemberTexts(ms))
    decreases |ms|
  {
    if |ms| == 1 {
      assert MemberText(ms[0]) + [] == MemberText(ms[0]);
    } else if |ms| > 1 {
      MembersAreCommas(ms[1..], whole);
      assert MemberTexts(ms)[1..] == MemberTexts(ms[1..]);
      assert MemberText(ms[0]) + ([44] + StableMembers(ms[1..], whole)) == MemberText(ms[0]) + [44] + StableMembers(ms[1..], whole);
    }
  }

  /** The serializer writes JSON text of the value. */
  lemma {:induction false} StableIsText(v: Json)
    requires Valid(v)
    ensures IsText(Stable(v), v)
    decreases v
  {
    match v {
      case String(s) => QuoteIsString(s);
      case Array(items) =>
        ItemsAreCommas(items);
        forall i | 0 <= i < |items|
          ensures IsText(Stable(items[i]), items[i])
        {
          StableIsText(items[i]);
        }
        assert AreItems(ItemTexts(items), items, v);
      case Object(members) => ObjectIsText(v);
      case _ =>
    }
  }

  lemma {:induction false} ObjectIsText(v: Json)
    requires Valid(v) && v.Object?
    ensures IsText(Stable(v), v)
    decreases v, 0
  {
    var sorted := SortedMembers(v.members);
    ObjectMembers(v);
    SortedMembersAscend(v.members);
    MembersAreCommas(sorted, v);
    assert IsSorting(sorted, v.members);
    forall i | 0 <= i < |sorted|
      ensures exists key, value :: MemberTexts(sorted)[i] == key + [58] + value && IsString(key, sorted[i].key) && IsText(value, sorted[i].value)
    {
      QuoteIsString(sorted[i].key);
      StableIsText(sorted[i].value);
      assert MemberTexts(sorted)[i] == Quote(sorted[i].key) + [58] + Stable(sorted[i].value);
    }
    assert AreMembers(MemberTexts(sorted), sorted, v);
  }
}
