/** Canonical texts are equal exactly for values that mean the same. */
module CanonicalJsonFaithful {
  import opened Utf16
  import opened Sorting
  import opened CanonicalJson

  // ----- Strings read back -----

  lemma {:induction false} EscapeStarts(c: CodeUnit)
    ensures Escape(c)[0] == (if |Escape(c)| == 1 then c else BACKSLASH)
    ensures |Escape(c)| == 1 ==> c >= 32 && c != QUOTE && c != BACKSLASH && !IsHighSurrogate(c) && !IsLowSurrogate(c)
    ensures |Escape(c)| == 1 || |Escape(c)| == 2 || |Escape(c)| == 6
    ensures |Escape(c)| == 2 ==> Escape(c)[1] == ShortEscape(c) && Escape(c)[1] != 117
    ensures |Escape(c)| == 6 ==> Escape(c) == UnicodeEscape(c)
  {
  }

  lemma HexDecompose(c: CodeUnit)
    ensures c == 0x1000 * (c / 0x1000) + 0x100 * (c / 0x100 % 16) + 16 * (c / 16 % 16) + c % 16
  {
    assert c == 16 * (c / 16) + c % 16;
    assert c / 16 == 16 * (c / 0x100) + c / 16 % 16;
    assert c / 0x100 == 16 * (c / 0x1000) + c / 0x100 % 16;
  }

  lemma {:induction false} UnicodeEscapeInjective(c: CodeUnit, d: CodeUnit)
    requires UnicodeEscape(c) == UnicodeEscape(d)
    ensures c == d
  {
    var e, f := UnicodeEscape(c), UnicodeEscape(d);
    assert e[2] == f[2] && e[3] == f[3] && e[4] == f[4] && e[5] == f[5];
    HexDecompose(c);
    HexDecompose(d);
    HexDigitInjective(c / 0x1000, d / 0x1000);
    HexDigitInjective(c / 0x100 % 16, d / 0x100 % 16);
    HexDigitInjective(c / 16 % 16, d / 16 % 16);
    HexDigitInjective(c % 16, d % 16);
  }

  lemma HexDigitInjective(m: nat, n: nat)
    requires m < 16 && n < 16
    ensures HexDigit(m) == HexDigit(n) ==> m == n
  {
  }

  /** Equal prefixes of equal lengths. */
  lemma SplitEqual<T>(a: seq<T>, x: seq<T>, b: seq<T>, y: seq<T>)
    requires a + x == b + y && |a| == |b|
    ensures a == b && x == y
  {
    assert (a + x)[..|a|] == a && (b + y)[..|b|] == b;
    assert (a + x)[|a|..] == x && (b + y)[|b|..] == y;
  }

  lemma {:induction false} EscapeInjective(c: CodeUnit, x: Text, d: CodeUnit, y: Text)
    requires Escape(c) + x == Escape(d) + y
    ensures c == d && x == y
  {
    EscapeStarts(c);
    EscapeStarts(d);
    assert (Escape(c) + x)[0] == (Escape(d) + y)[0];
    if |Escape(c)| > 1 && |Escape(d)| > 1 {
      assert (Escape(c) + x)[1] == (Escape(d) + y)[1];
    }
    SplitEqual(Escape(c), x, Escape(d), y);
    if |Escape(c)| == 6 {
      UnicodeEscapeInjective(c, d);
    }
  }

  lemma {:induction false} ChunkInjective(s: Text, x: Text, t: Text, y: Text)
    requires s != [] && t != [] && ChunkText(s) + x == ChunkText(t) + y
    ensures ChunkSize(s) == ChunkSize(t) && s[..ChunkSize(s)] == t[..ChunkSize(t)] && x == y
  {
    EscapeStarts(s[0]);
    EscapeStarts(t[0]);
    assert (ChunkText(s) + x)[0] == (ChunkText(t) + y)[0];
    if ChunkSize(s) == 2 {
      SplitEqual(ChunkText(s), x, ChunkText(t), y);
    } else {
      EscapeInjective(s[0], x, t[0], y);
    }
  }

  lemma {:induction false} QuoteText(s: Text, x: Text)
    requires s != []
    ensures QuoteBody(s) + ([QUOTE] + x) == ChunkText(s) + (QuoteBody(s[ChunkSize(s)..]) + ([QUOTE] + x))
    ensures (QuoteBody(s) + ([QUOTE] + x))[0] != QUOTE
  {
    EscapeStarts(s[0]);
    var chunk, rest := ChunkText(s), QuoteBody(s[ChunkSize(s)..]);
    assert QuoteBody(s) == chunk + rest;
    assert (chunk + rest) + ([QUOTE] + x) == chunk + (rest + ([QUOTE] + x));
  }

  /** A quoted string ends where its closing quote is, and determines the string. */
  lemma {:induction false} QuoteInjective(s: Text, x: Text, t: Text, y: Text)
    requires QuoteBody(s) + ([QUOTE] + x) == QuoteBody(t) + ([QUOTE] + y)
    ensures s == t && x == y
    decreases |s|
  {
    assert s == [] ==> QuoteBody(s) + ([QUOTE] + x) == [QUOTE] + x;
    assert t == [] ==> QuoteBody(t) + ([QUOTE] + y) == [QUOTE] + y;
    if s != [] {
      QuoteText(s, x);
    }
    if t != [] {
      QuoteText(t, y);
    }
    if s == [] {
      SplitEqual([QUOTE], x, [QUOTE], y);
    } else {
      var restS, restT := s[ChunkSize(s)..], t[ChunkSize(t)..];
      ChunkInjective(s, QuoteBody(restS) + ([QUOTE] + x), t, QuoteBody(restT) + ([QUOTE] + y));
      QuoteInjective(restS, x, restT, y);
      assert s == s[..ChunkSize(s)] + restS && t == t[..ChunkSize(t)] + restT;
    }
  }

  // ----- The order of the keys -----

  lemma {:induction false} LessTrichotomy(a: Text, b: Text)
    ensures !(Less(a, b) && Less(b, a))
    ensures !Less(a, b) && !Less(b, a) ==> a == b
    ensures !Less(a, a)
  {
    if a != [] {
      LessTrichotomy(a[1..], if b == [] then [] else b[1..]);
      assert b != [] && a[0] == b[0] && a[1..] == b[1..] ==> a == [a[0]] + a[1..] == b;
    }
  }

  lemma {:induction false} LessTransitive(a: Text, b: Text, c: Text)
    requires Less(a, b) && Less(b, c)
    ensures Less(a, c)
  {
    if a != [] {
      if a[0] == b[0] == c[0] {
        LessTransitive(a[1..], b[1..], c[1..]);
      }
    }
  }

  lemma {:induction false} KeyOrderIsTotal()
    ensures TotalPreorder(KeyOrder)
  {
    forall x, y
      ensures KeyOrder(x, y) || KeyOrder(y, x)
    {
      LessTrichotomy(x.key, y.key);
    }
    forall x, y, z | KeyOrder(x, y) && KeyOrder(y, z)
      ensures KeyOrder(x, z)
    {
      LessTrichotomy(x.key, y.key);
      LessTrichotomy(y.key, z.key);
      if Less(z.key, x.key) {
        if Less(x.key, y.key) {
          LessTransitive(z.key, x.key, y.key);
        }
      }
    }
  }

  ghost predicate Ascending(ms: seq<Member>) {
    forall i, j :: 0 <= i < j < |ms| ==> Less(ms[i].key, ms[j].key)
  }

  ghost function Keys(ms: seq<Member>): set<Text> {
    set m | m in ms :: m.key
  }

  lemma {:induction false} SortedMembersAscend(ms: seq<Member>)
    requires DistinctKeys(ms)
    ensures Ascending(SortedMembers(ms))
    ensures forall m :: m in SortedMembers(ms) <==> m in ms
  {
    KeyOrderIsTotal();
    SortSorts(ms, KeyOrder);
    SortKeepsDistinct(ms, KeyOrder);
    var r := SortedMembers(ms);
    assert r == SortBy(ms, KeyOrder);
    assert forall i, j :: 0 <= i < j < |r| ==> r[i] != r[j];
    forall i, j | 0 <= i < j < |r|
      ensures Less(r[i].key, r[j].key)
    {
      assert KeyOrder(r[i], r[j]);
      assert r[i] in ms && r[j] in ms && r[i] != r[j];
      LessTrichotomy(r[i].key, r[j].key);
    }
  }

  /** Ascending sequences with the same keys list them in the same order. */
  lemma {:induction false} AscendingUnique(ms: seq<Member>, ns: seq<Member>)
    requires Ascending(ms) && Ascending(ns) && Keys(ms) == Keys(ns)
    ensures |ms| == |ns| && forall i :: 0 <= i < |ms| ==> ms[i].key == ns[i].key
  {
    EmptyKeys(ms);
    EmptyKeys(ns);
    if ms != [] {
      SmallestKey(ms, ns);
      SmallestKey(ns, ms);
      LessTrichotomy(ms[0].key, ns[0].key);
      TailKeys(ms);
      TailKeys(ns);
      AscendingUnique(ms[1..], ns[1..]);
    }
  }

  lemma EmptyKeys(ms: seq<Member>)
    ensures Keys(ms) == {} <==> ms == []
  {
    if ms != [] {
      assert ms[0].key in Keys(ms);
    }
  }

  lemma SmallestKey(ms: seq<Member>, ns: seq<Member>)
    requires ms != [] && ns != [] && Ascending(ms) && Keys(ms) == Keys(ns)
    ensures !Less(ns[0].key, ms[0].key)
  {
    assert ns[0].key in Keys(ms);
    var i :| 0 <= i < |ms| && ms[i].key == ns[0].key;
    LessTrichotomy(ms[0].key, ms[i].key);
  }

  lemma TailKeys(ms: seq<Member>)
    requires ms != [] && Ascending(ms)
    ensures Ascending(ms[1..]) && Keys(ms[1..]) == Keys(ms) - {ms[0].key}
  {
    assert ms == [ms[0]] + ms[1..];
    forall m | m in ms[1..]
      ensures m.key != ms[0].key
    {
      LessTrichotomy(m.key, ms[0].key);
    }
  }

  // ----- Objects as maps -----

  lemma {:induction false} FieldMeaning(ms: seq<Member>)
    requires DistinctKeys(ms)
    ensures FieldMeanings(ms).Keys == Keys(ms)
    ensures forall m :: m in ms ==> FieldMeanings(ms)[m.key] == Meaning(m.value)
  {
    if ms != [] {
      assert ms == [ms[0]] + ms[1..];
      FieldMeaning(ms[1..]);
      assert Keys(ms) == {ms[0].key} + Keys(ms[1..]);
    }
  }

  lemma {:induction false} SortedFields(ms: seq<Member>)
    requires DistinctKeys(ms)
    ensures var sm := SortedMembers(ms);
            && Ascending(sm)
            && FieldMeanings(ms).Keys == Keys(sm)
            && forall i :: 0 <= i < |sm| ==> sm[i].key in FieldMeanings(ms)
                                             && FieldMeanings(ms)[sm[i].key] == Meaning(sm[i].value)
  {
    var sm := SortedMembers(ms);
    SortedMembersAscend(ms);
    FieldMeaning(ms);
    assert Keys(sm) == Keys(ms);
    forall i | 0 <= i < |sm|
      ensures sm[i].key in FieldMeanings(ms) && FieldMeanings(ms)[sm[i].key] == Meaning(sm[i].value)
    {
      assert sm[i] in ms;
    }
  }

  lemma {:induction false} SameFieldsAgree(ms: seq<Member>, ns: seq<Member>)
    requires DistinctKeys(ms) && DistinctKeys(ns) && FieldMeanings(ms) == FieldMeanings(ns)
    ensures Agree(SortedMembers(ms), SortedMembers(ns))
  {
    SortedFields(ms);
    SortedFields(ns);
    AscendingUnique(SortedMembers(ms), SortedMembers(ns));
  }

  lemma {:induction false} AgreeingFields(ms: seq<Member>, ns: seq<Member>)
    requires DistinctKeys(ms) && DistinctKeys(ns) && Agree(SortedMembers(ms), SortedMembers(ns))
    ensures FieldMeanings(ms) == FieldMeanings(ns)
  {
    var sm, sn := SortedMembers(ms), SortedMembers(ns);
    SortedFields(ms);
    SortedFields(ns);
    AgreeingKeys(sm, sn);
    forall k | k in FieldMeanings(ms)
      ensures FieldMeanings(ms)[k] == FieldMeanings(ns)[k]
    {
      KeyIndex(sm, k);
    }
  }

  lemma KeyIndex(ms: seq<Member>, k: Text)
    requires k in Keys(ms)
    ensures exists i :: 0 <= i < |ms| && ms[i].key == k
  {
  }

  ghost predicate Agree(ms: seq<Member>, ns: seq<Member>) {
    && |ms| == |ns|
    && forall i :: 0 <= i < |ms| ==> ms[i].key == ns[i].key && Meaning(ms[i].value) == Meaning(ns[i].value)
  }

  lemma AgreeingKeys(ms: seq<Member>, ns: seq<Member>)
    requires Agree(ms, ns)
    ensures Keys(ms) == Keys(ns)
  {
    forall k | k in Keys(ms)
      ensures k in Keys(ns)
    {
      var i :| 0 <= i < |ms| && ms[i].key == k;
      assert ns[i] in ns;
    }
    forall k | k in Keys(ns)
      ensures k in Keys(ms)
    {
      var i :| 0 <= i < |ns| && ns[i].key == k;
      assert ms[i] in ms;
    }
  }

  // ----- No canonical text is a prefix of another one -----

  /** What may follow a value inside a canonical text. */
  predicate Delimited(x: Text) {
    x == [] || x[0] == COMMA || x[0] == CLOSE_BRACKET || x[0] == CLOSE_BRACE
  }

  predicate StartsLike(v: Json, c: CodeUnit) {
    match v
    case Null => c == 110
    case Bool(b) => c == if b then 116 else 102
    case Number(_) => IsDigit(c) || c == MINUS
    case String(_) => c == QUOTE
    case Array(_) => c == OPEN_BRACKET
    case Object(_) => c == OPEN_BRACE
  }

  lemma {:induction false} StableStarts(v: Json)
    requires Valid(v)
    ensures Stable(v) != [] && StartsLike(v, Stable(v)[0])
  {
  }

  lemma {:induction false} NumberPrefix(a: Text, x: Text, b: Text, y: Text)
    requires IsNumberLiteral(a) && IsNumberLiteral(b) && Delimited(x) && Delimited(y)
    requires a + x == b + y
    ensures a == b && x == y
  {
    assert |a| < |b| ==> (b + y)[|a|] == b[|a|] && IsNumeric(b[|a|]);
    assert |b| < |a| ==> (a + x)[|b|] == a[|b|] && IsNumeric(a[|b|]);
    assert x != [] ==> (a + x)[|a|] == x[0];
    assert y != [] ==> (b + y)[|b|] == y[0];
    SplitEqual(a, x, b, y);
  }

  /** The text between the same opening and closing delimiters. */
  lemma Unwrap(o: CodeUnit, a: Text, c: CodeUnit, x: Text, b: Text, y: Text)
    requires [o] + a + [c] + x == [o] + b + [c] + y
    ensures a + ([c] + x) == b + ([c] + y)
  {
    var u, w := [o] + a + [c] + x, [o] + b + [c] + y;
    assert u[1..] == a + ([c] + x);
    assert w[1..] == b + ([c] + y);
  }

  lemma {:induction false} StablePrefix(v: Json, x: Text, w: Json, y: Text)
    requires Valid(v) && Valid(w) && Delimited(x) && Delimited(y)
    requires Stable(v) + x == Stable(w) + y
    ensures Meaning(v) == Meaning(w) && x == y
    decreases v, 1
  {
    StableStarts(v);
    StableStarts(w);
    assert (Stable(v) + x)[0] == Stable(v)[0] && (Stable(w) + y)[0] == Stable(w)[0];
    match v {
      case Null => SplitEqual(Stable(v), x, Stable(w), y);
      case Bool(_) => SplitEqual(Stable(v), x, Stable(w), y);
      case Number(literal) => NumberPrefix(literal, x, w.literal, y);
      case String(text) =>
        Unwrap(QUOTE, QuoteBody(text), QUOTE, x, QuoteBody(w.text), y);
        QuoteInjective(text, x, w.text, y);
      case Array(items) =>
        Unwrap(OPEN_BRACKET, StableItems(items), CLOSE_BRACKET, x, StableItems(w.items), y);
        ItemsPrefix(items, x, w.items, y);
      case Object(members) =>
        ObjectPrefix(v, x, w, y);
    }
  }

  lemma {:induction false} ObjectPrefix(v: Json, x: Text, w: Json, y: Text)
    requires v.Object? && w.Object? && Valid(v) && Valid(w)
    requires Stable(v) + x == Stable(w) + y
    ensures Meaning(v) == Meaning(w) && x == y
    decreases v, 0, |v.members| + 1
  {
    var sv, sw := SortedMembers(v.members), SortedMembers(w.members);
    ObjectMembers(v);
    ObjectMembers(w);
    Unwrap(OPEN_BRACE, StableMembers(sv, v), CLOSE_BRACE, x, StableMembers(sw, w), y);
    MembersPrefix(v, sv, x, w, sw, y);
    AgreeingFields(v.members, w.members);
  }

  ghost predicate MembersOf(ms: seq<Member>, whole: Json) {
    forall i :: 0 <= i < |ms| ==> ms[i].value < whole && Valid(ms[i].value)
  }

  lemma {:induction false} ObjectMembers(v: Json)
    requires Valid(v) && v.Object?
    ensures MembersOf(SortedMembers(v.members), v)
  {
    var ms := SortedMembers(v.members);
    forall i | 0 <= i < |ms|
      ensures ms[i].value < v && Valid(ms[i].value)
    {
      var k :| 0 <= k < |v.members| && v.members[k] == ms[i];
    }
  }

  /** What follows the first item of an array text. */
  ghost function ItemsTail(vs: seq<Json>, x: Text): Text
    requires vs != []
  {
    if |vs| == 1 then [CLOSE_BRACKET] + x else [COMMA] + (StableItems(vs[1..]) + ([CLOSE_BRACKET] + x))
  }

  lemma {:induction false} ItemsText(vs: seq<Json>, x: Text)
    requires vs != []
    ensures StableItems(vs) + ([CLOSE_BRACKET] + x) == Stable(vs[0]) + ItemsTail(vs, x)
  {
    var more := if |vs| == 1 then [] else [COMMA] + StableItems(vs[1..]);
    assert more + ([CLOSE_BRACKET] + x) == ItemsTail(vs, x);
    assert (Stable(vs[0]) + more) + ([CLOSE_BRACKET] + x) == Stable(vs[0]) + (more + ([CLOSE_BRACKET] + x));
  }

  lemma {:induction false} ItemsPrefix(vs: seq<Json>, x: Text, ws: seq<Json>, y: Text)
    requires forall i :: 0 <= i < |vs| ==> Valid(vs[i])
    requires forall i :: 0 <= i < |ws| ==> Valid(ws[i])
    requires StableItems(vs) + ([CLOSE_BRACKET] + x) == StableItems(ws) + ([CLOSE_BRACKET] + y)
    ensures ItemMeanings(vs) == ItemMeanings(ws) && x == y
    decreases vs, 0
  {
    var a, b := StableItems(vs) + ([CLOSE_BRACKET] + x), StableItems(ws) + ([CLOSE_BRACKET] + y);
    assert vs == [] ==> a == [CLOSE_BRACKET] + x;
    assert ws == [] ==> b == [CLOSE_BRACKET] + y;
    if vs != [] {
      ItemsText(vs, x);
      StableStarts(vs[0]);
      assert a[0] == Stable(vs[0])[0];
    }
    if ws != [] {
      ItemsText(ws, y);
      StableStarts(ws[0]);
      assert b[0] == Stable(ws[0])[0];
    }
    if vs == [] {
      SplitEqual([CLOSE_BRACKET], x, [CLOSE_BRACKET], y);
    } else {
      StablePrefix(vs[0], ItemsTail(vs, x), ws[0], ItemsTail(ws, y));
      OtherItems(vs, x, ws, y);
    }
  }

  lemma {:induction false} OtherItems(vs: seq<Json>, x: Text, ws: seq<Json>, y: Text)
    requires vs != [] && ws != []
    requires forall i :: 0 <= i < |vs| ==> Valid(vs[i])
    requires forall i :: 0 <= i < |ws| ==> Valid(ws[i])
    requires Meaning(vs[0]) == Meaning(ws[0]) && ItemsTail(vs, x) == ItemsTail(ws, y)
    ensures ItemMeanings(vs) == ItemMeanings(ws) && x == y
    decreases vs, 0, 0
  {
    assert ItemsTail(vs, x)[0] == ItemsTail(ws, y)[0];
    if |vs| == 1 {
      SplitEqual([CLOSE_BRACKET], x, [CLOSE_BRACKET], y);
    } else {
      SplitEqual([COMMA], StableItems(vs[1..]) + ([CLOSE_BRACKET] + x),
                 [COMMA], StableItems(ws[1..]) + ([CLOSE_BRACKET] + y));
      ItemsPrefix(vs[1..], x, ws[1..], y);
    }
  }

  /** What follows the first value of a sorted object text. */
  ghost function MembersTail(ms: seq<Member>, whole: Json, x: Text): Text
    requires ms != [] && MembersOf(ms, whole)
  {
    if |ms| == 1 then [CLOSE_BRACE] + x
    else [COMMA] + (StableMembers(ms[1..], whole) + ([CLOSE_BRACE] + x))
  }

  lemma {:induction false} MembersText(ms: seq<Member>, whole: Json, x: Text)
    requires ms != [] && MembersOf(ms, whole)
    ensures StableMembers(ms, whole) + ([CLOSE_BRACE] + x)
         == [QUOTE] + (QuoteBody(ms[0].key) + ([QUOTE] + ([COLON] + (Stable(ms[0].value) + MembersTail(ms, whole, x)))))
    ensures Delimited(MembersTail(ms, whole, x))
  {
    var key, value, end := QuoteBody(ms[0].key), Stable(ms[0].value), [CLOSE_BRACE] + x;
    var more := if |ms| == 1 then [] else [COMMA] + StableMembers(ms[1..], whole);
    assert more + end == MembersTail(ms, whole, x);
    assert StableMembers(ms, whole) == ([QUOTE] + key + [QUOTE]) + [COLON] + value + more;
    Reassociate(key, value, more, end);
  }

  lemma Reassociate(key: Text, value: Text, more: Text, end: Text)
    ensures (([QUOTE] + key + [QUOTE]) + [COLON] + value + more) + end
         == [QUOTE] + (key + ([QUOTE] + ([COLON] + (value + (more + end)))))
  {
  }

  lemma {:induction false} MembersPrefix(
    v: Json, ms: seq<Member>, x: Text, w: Json, ns: seq<Member>, y: Text)
    requires MembersOf(ms, v) && MembersOf(ns, w)
    requires StableMembers(ms, v) + ([CLOSE_BRACE] + x) == StableMembers(ns, w) + ([CLOSE_BRACE] + y)
    ensures Agree(ms, ns) && x == y
    decreases v, 0, |ms|
  {
    var a, b := StableMembers(ms, v) + ([CLOSE_BRACE] + x), StableMembers(ns, w) + ([CLOSE_BRACE] + y);
    assert ms == [] ==> a == [CLOSE_BRACE] + x;
    assert ns == [] ==> b == [CLOSE_BRACE] + y;
    if ms != [] {
      MembersText(ms, v, x);
      assert a[0] == QUOTE;
    }
    if ns != [] {
      MembersText(ns, w, y);
      assert b[0] == QUOTE;
    }
    if ms == [] {
      SplitEqual([CLOSE_BRACE], x, [CLOSE_BRACE], y);
    } else {
      var tailV, tailW := MembersTail(ms, v, x), MembersTail(ns, w, y);
      FirstMember(ms[0], tailV, ns[0], tailW);
      StablePrefix(ms[0].value, tailV, ns[0].value, tailW);
      OtherMembers(v, ms, x, w, ns, y);
    }
  }

  /** The key of a member, its quotes and the colon determine where its value starts. */
  lemma {:induction false} FirstMember(m: Member, x: Text, n: Member, y: Text)
    requires [QUOTE] + (QuoteBody(m.key) + ([QUOTE] + ([COLON] + (Stable(m.value) + x))))
          == [QUOTE] + (QuoteBody(n.key) + ([QUOTE] + ([COLON] + (Stable(n.value) + y))))
    ensures m.key == n.key && Stable(m.value) + x == Stable(n.value) + y
  {
    var restM, restN := [COLON] + (Stable(m.value) + x), [COLON] + (Stable(n.value) + y);
    SplitEqual([QUOTE], QuoteBody(m.key) + ([QUOTE] + restM), [QUOTE], QuoteBody(n.key) + ([QUOTE] + restN));
    QuoteInjective(m.key, restM, n.key, restN);
    SplitEqual([COLON], Stable(m.value) + x, [COLON], Stable(n.value) + y);
  }

  lemma {:induction false} OtherMembers(
    v: Json, ms: seq<Member>, x: Text, w: Json, ns: seq<Member>, y: Text)
    requires ms != [] && ns != [] && MembersOf(ms, v) && MembersOf(ns, w)
    requires ms[0].key == ns[0].key && Meaning(ms[0].value) == Meaning(ns[0].value)
    requires MembersTail(ms, v, x) == MembersTail(ns, w, y)
    ensures Agree(ms, ns) && x == y
    decreases v, 0, |ms|, 0
  {
    assert MembersTail(ms, v, x)[0] == MembersTail(ns, w, y)[0];
    if |ms| == 1 {
      SplitEqual([CLOSE_BRACE], x, [CLOSE_BRACE], y);
    } else {
      SplitEqual([COMMA], StableMembers(ms[1..], v) + ([CLOSE_BRACE] + x),
                 [COMMA], StableMembers(ns[1..], w) + ([CLOSE_BRACE] + y));
      MembersPrefix(v, ms[1..], x, w, ns[1..], y);
      assert forall i :: 1 <= i < |ms| ==> ms[i] == ms[1..][i - 1] && ns[i] == ns[1..][i - 1];
    }
  }

  // ----- Equal values have equal texts -----

  lemma {:induction false} StableRespectsMeaning(v: Json, w: Json)
    requires Valid(v) && Valid(w) && Meaning(v) == Meaning(w)
    ensures Stable(v) == Stable(w)
    decreases v, 1
  {
    match v {
      case Array(items) => ItemsRespectMeaning(items, w.items);
      case Object(members) =>
        SameFieldsAgree(members, w.members);
        ObjectMembers(v);
        ObjectMembers(w);
        MembersRespectMeaning(v, SortedMembers(members), w, SortedMembers(w.members));
      case _ =>
    }
  }

  lemma {:induction false} ItemsRespectMeaning(vs: seq<Json>, ws: seq<Json>)
    requires forall i :: 0 <= i < |vs| ==> Valid(vs[i])
    requires forall i :: 0 <= i < |ws| ==> Valid(ws[i])
    requires ItemMeanings(vs) == ItemMeanings(ws)
    ensures StableItems(vs) == StableItems(ws)
    decreases vs, 0
  {
    if vs != [] {
      assert ItemMeanings(vs)[0] == ItemMeanings(ws)[0];
      assert ItemMeanings(vs)[1..] == ItemMeanings(ws)[1..];
      StableRespectsMeaning(vs[0], ws[0]);
      ItemsRespectMeaning(vs[1..], ws[1..]);
    }
  }

  lemma {:induction false} MembersRespectMeaning(
    v: Json, ms: seq<Member>, w: Json, ns: seq<Member>)
    requires MembersOf(ms, v) && MembersOf(ns, w) && Agree(ms, ns)
    ensures StableMembers(ms, v) == StableMembers(ns, w)
    decreases v, 0, |ms|
  {
    if ms != [] {
      StableRespectsMeaning(ms[0].value, ns[0].value);
      MembersRespectMeaning(v, ms[1..], w, ns[1..]);
    }
  }

  /**
   The serializer is faithful: two parsed values have the same canonical text exactly when
   they are the same value with objects read as maps, whatever the order of their keys.
   */
  lemma {:induction false} StableIsFaithful(v: Json, w: Json)
    requires Valid(v) && Valid(w)
    ensures Stable(v) == Stable(w) <==> Meaning(v) == Meaning(w)
  {
    if Stable(v) == Stable(w) {
      StablePrefix(v, [], w, []);
    }
    if Meaning(v) == Meaning(w) {
      StableRespectsMeaning(v, w);
    }
  }
}
