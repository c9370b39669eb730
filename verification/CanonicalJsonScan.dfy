/**
 No canonical array is a proper suffix of a canonical array. A scanner that only tracks
 brackets and quotes tells the start of a text from any later position of it.
 */
module CanonicalJsonScan {
  import opened Utf16
  import opened CanonicalJson
  import opened CanonicalJsonFaithful

  /** Outside a string, inside one, after a backslash; past the last closing bracket; impossible. */
  datatype Scan = Out(depth: nat) | In(depth: nat) | Esc(depth: nat) | Done | Stuck

  function Next(st: Scan, c: CodeUnit): Scan {
    match st
    case Out(d) =>
      if c == QUOTE then In(d)
      else if c == OPEN_BRACKET || c == OPEN_BRACE then Out(d + 1)
      else if c == CLOSE_BRACKET || c == CLOSE_BRACE then
        (if d == 0 then Stuck else if d == 1 then Done else Out(d - 1))
      else if c == BACKSLASH then Stuck
      else st
    case In(d) => if c == QUOTE then Out(d) else if c == BACKSLASH then Esc(d) else st
    case Esc(d) => In(d)
    case Done => Stuck
    case Stuck => Stuck
  }

  function Run(st: Scan, text: Text): Scan
    decreases |text|
  {
    if text == [] then st else Run(Next(st, text[0]), text[1..])
  }

  lemma {:induction false} RunConcat(st: Scan, a: Text, b: Text)
    ensures Run(st, a + b) == Run(Run(st, a), b)
    decreases |a|
  {
    if a == [] {
      assert a + b == b;
    } else {
      assert (a + b)[1..] == a[1..] + b;
      RunConcat(Next(st, a[0]), a[1..], b);
    }
  }

  lemma {:induction false} RunStuck(text: Text)
    ensures Run(Stuck, text) == Stuck
  {
    if text != [] {
      RunStuck(text[1..]);
    }
  }

  /** Units that leave every scanner state outside an escape as it is. */
  predicate Plain(text: Text) {
    forall i :: 0 <= i < |text| ==>
                  text[i] != QUOTE && text[i] != BACKSLASH && text[i] != OPEN_BRACKET && text[i] != OPEN_BRACE
                  && text[i] != CLOSE_BRACKET && text[i] != CLOSE_BRACE
  }

  lemma {:induction false} RunPlain(st: Scan, text: Text)
    requires Plain(text) && (st.Out? || st.In?)
    ensures Run(st, text) == st
  {
    if text != [] {
      RunPlain(st, text[1..]);
    }
  }

  // ----- Strings -----

  lemma {:induction false} ChunkInside(d: nat, s: Text)
    requires s != []
    ensures Run(In(d), ChunkText(s)) == In(d)
  {
    var t := ChunkText(s);
    EscapeStarts(s[0]);
    if ChunkSize(s) == 2 || |t| == 1 {
      RunInOne(d, t);
    } else if |t| == 2 {
      assert t == [BACKSLASH] + [t[1]];
      RunConcat(In(d), [BACKSLASH], [t[1]]);
      RunOne(In(d), BACKSLASH);
      RunOne(Esc(d), t[1]);
    } else {
      assert Run(In(d), t) == Run(Esc(d), t[1..]) == Run(In(d), t[1..][1..]);
      assert t[1..][1..] == t[2..];
      HexIsPlain(s[0]);
      RunPlain(In(d), t[2..]);
    }
  }

  lemma HexIsPlain(c: CodeUnit)
    ensures Plain(UnicodeEscape(c)[2..])
  {
    assert UnicodeEscape(c)[2..] ==
           [HexDigit(c / 0x1000), HexDigit(c / 0x100 % 16), HexDigit(c / 16 % 16), HexDigit(c % 16)];
  }

  lemma {:induction false} RunInOne(d: nat, t: Text)
    requires forall i :: 0 <= i < |t| ==> t[i] != QUOTE && t[i] != BACKSLASH
    ensures Run(In(d), t) == In(d)
  {
    if t != [] {
      RunInOne(d, t[1..]);
    }
  }

  /** A string body keeps the scanner inside the string. */
  lemma {:induction false} BodyInside(d: nat, s: Text)
    ensures Run(In(d), QuoteBody(s)) == In(d)
    decreases |s|
  {
    if s != [] {
      var rest := QuoteBody(s[ChunkSize(s)..]);
      RunConcat(In(d), ChunkText(s), rest);
      ChunkInside(d, s);
      BodyInside(d, s[ChunkSize(s)..]);
    }
  }

  /** Read as if it were outside a string, the same body never opens one. */
  lemma {:induction false} BodyOutside(st: Scan, s: Text)
    requires !st.In? && !st.Esc?
    ensures var r := Run(st, QuoteBody(s)); !r.In? && !r.Esc?
    decreases |s|
  {
    if s != [] {
      var rest := QuoteBody(s[ChunkSize(s)..]);
      RunConcat(st, ChunkText(s), rest);
      ChunkOutside(st, s);
      BodyOutside(Run(st, ChunkText(s)), s[ChunkSize(s)..]);
    }
  }

  lemma {:induction false} ChunkOutside(st: Scan, s: Text)
    requires s != [] && !st.In? && !st.Esc?
    ensures var r := Run(st, ChunkText(s)); !r.In? && !r.Esc?
  {
    var t := ChunkText(s);
    EscapeStarts(s[0]);
    if ChunkSize(s) == 2 {
      assert t[1..][1..] == [];
      assert Run(st, t) == Run(Next(st, t[0]), t[1..]) == Run(Next(Next(st, t[0]), t[1]), []);
    } else if |t| == 1 {
      assert t[1..] == [];
    } else {
      assert Next(st, t[0]) == Stuck;
      RunStuck(t[1..]);
    }
  }

  lemma {:induction false} QuoteScan(st: Scan, s: Text)
    requires st.Out? || st.In? || st.Stuck?
    ensures st.Out? ==> Run(st, Quote(s)) == st
    ensures !st.Out? ==> var r := Run(st, Quote(s)); r.In? || r.Stuck?
  {
    var body := QuoteBody(s);
    RunConcat(st, [QUOTE] + body, [QUOTE]);
    RunConcat(st, [QUOTE], body);
    RunOne(st, QUOTE);
    RunOne(Run(st, [QUOTE] + body), QUOTE);
    if st.Out? {
      BodyInside(st.depth, s);
    } else {
      BodyOutside(Next(st, QUOTE), s);
    }
  }

  lemma RunOne(st: Scan, c: CodeUnit)
    ensures Run(st, [c]) == Next(st, c)
  {
    assert [c][1..] == [];
    assert Run(Next(st, c), []) == Next(st, c);
  }

  // ----- Values -----

  /** Scanning a value from outside returns where it was; from inside a string it never gets out. */
  ghost predicate Neutral(st: Scan, text: Text) {
    var r := Run(st, text);
    && (st.Out? && st.depth > 0 ==> r == st)
    && (st.In? || st.Stuck? ==> r.In? || r.Stuck?)
  }

  ghost predicate Relevant(st: Scan) {
    (st.Out? && st.depth > 0) || st.In? || st.Stuck?
  }

  lemma {:induction false} NeutralPlain(st: Scan, text: Text)
    requires Plain(text) && Relevant(st)
    ensures Neutral(st, text)
  {
    if st.Stuck? {
      RunStuck(text);
    } else {
      RunPlain(st, text);
    }
  }

  lemma {:induction false} NeutralConcat(st: Scan, a: Text, b: Text)
    requires Relevant(st)
    requires Neutral(st, a)
    requires Relevant(Run(st, a)) ==> Neutral(Run(st, a), b)
    ensures Neutral(st, a + b) && Relevant(Run(st, a))
  {
    RunConcat(st, a, b);
  }

  /** A bracketed text is neutral when its inside is. */
  lemma {:induction false} NeutralBrackets(st: Scan, o: CodeUnit, inside: Text, c: CodeUnit)
    requires Relevant(st)
    requires (o == OPEN_BRACKET && c == CLOSE_BRACKET) || (o == OPEN_BRACE && c == CLOSE_BRACE)
    requires Neutral(if st.Out? then Out(st.depth + 1) else st, inside)
    ensures Neutral(st, [o] + inside + [c])
  {
    RunConcat(st, [o] + inside, [c]);
    RunConcat(st, [o], inside);
    RunOne(st, o);
    RunOne(Run(st, [o] + inside), c);
  }

  lemma {:induction false} StableNeutral(v: Json, st: Scan)
    requires Valid(v) && Relevant(st)
    ensures Neutral(st, Stable(v))
    decreases v, 1
  {
    match v {
      case String(text) => QuoteScan(st, text);
      case Array(items) =>
        var inner := if st.Out? then Out(st.depth + 1) else st;
        ItemsNeutral(items, inner);
        NeutralBrackets(st, OPEN_BRACKET, StableItems(items), CLOSE_BRACKET);
      case Object(members) =>
        var inner := if st.Out? then Out(st.depth + 1) else st;
        ObjectMembers(v);
        MembersNeutral(v, SortedMembers(members), inner);
        NeutralBrackets(st, OPEN_BRACE, StableMembers(SortedMembers(members), v), CLOSE_BRACE);
      case _ => NeutralPlain(st, Stable(v));
    }
  }

  lemma {:induction false} ItemsNeutral(vs: seq<Json>, st: Scan)
    requires (forall i :: 0 <= i < |vs| ==> Valid(vs[i])) && Relevant(st)
    ensures Neutral(st, StableItems(vs))
    decreases vs, 0
  {
    if vs == [] {
    } else if |vs| == 1 {
      StableNeutral(vs[0], st);
      assert StableItems(vs) == Stable(vs[0]);
    } else {
      StableNeutral(vs[0], st);
      var mid := Run(st, Stable(vs[0]));
      NeutralPlain(mid, [COMMA]);
      ItemsNeutral(vs[1..], Run(mid, [COMMA]));
      NeutralConcat(mid, [COMMA], StableItems(vs[1..]));
      NeutralConcat(st, Stable(vs[0]), [COMMA] + StableItems(vs[1..]));
    }
  }

  lemma {:induction false} MembersNeutral(v: Json, ms: seq<Member>, st: Scan)
    requires MembersOf(ms, v) && Relevant(st)
    ensures Neutral(st, StableMembers(ms, v))
    decreases v, 0, |ms|
  {
    if ms != [] {
      var key, value := Quote(ms[0].key), Stable(ms[0].value);
      QuoteScan(st, ms[0].key);
      var afterKey := Run(st, key);
      NeutralPlain(afterKey, [COLON]);
      NeutralConcat(st, key, [COLON]);
      var atValue := Run(st, key + [COLON]);
      RunConcat(st, key, [COLON]);
      StableNeutral(ms[0].value, atValue);
      NeutralConcat(st, key + [COLON], value);
      if |ms| == 1 {
        assert StableMembers(ms, v) == (key + [COLON]) + value;
      } else {
        var head := (key + [COLON]) + value;
        var mid := Run(st, head);
        RunConcat(st, key + [COLON], value);
        NeutralPlain(mid, [COMMA]);
        MembersNeutral(v, ms[1..], Run(mid, [COMMA]));
        NeutralConcat(mid, [COMMA], StableMembers(ms[1..], v));
        NeutralConcat(st, head, [COMMA] + StableMembers(ms[1..], v));
        assert StableMembers(ms, v) == head + ([COMMA] + StableMembers(ms[1..], v));
      }
    }
  }

  // ----- Suffixes -----

  /** Once a bracket has been opened, the scanner is never outside at depth zero again. */
  ghost predicate Opened(st: Scan) {
    st.Done? || st.Stuck? || st.depth > 0
  }

  lemma {:induction false} RunOpened(st: Scan, text: Text)
    requires Opened(st)
    ensures Opened(Run(st, text))
    decreases |text|
  {
    if text != [] {
      RunOpened(Next(st, text[0]), text[1..]);
    }
  }

  lemma {:induction false} ArrayDone(v: Json)
    requires v.Array? && Valid(v)
    ensures Run(Out(0), Stable(v)) == Done
  {
    var inside := StableItems(v.items);
    RunConcat(Out(0), [OPEN_BRACKET] + inside, [CLOSE_BRACKET]);
    RunConcat(Out(0), [OPEN_BRACKET], inside);
    RunOne(Out(0), OPEN_BRACKET);
    ItemsNeutral(v.items, Out(1));
    RunOne(Out(1), CLOSE_BRACKET);
  }

  lemma {:induction false} ArrayNotDone(w: Json, st: Scan)
    requires w.Array? && Valid(w) && Opened(st)
    ensures Run(st, Stable(w)) != Done
  {
    var text := Stable(w);
    assert text[0] == OPEN_BRACKET;
    match st {
      case Done => RunStuck(text[1..]);
      case Esc(d) =>
        StableNeutral(w, In(d));
        assert Next(In(d), OPEN_BRACKET) == Next(Esc(d), OPEN_BRACKET);
      case _ => StableNeutral(w, st);
    }
  }

  lemma {:induction false} NoProperSuffix(v: Json, p: Text, w: Json)
    requires v.Array? && w.Array? && Valid(v) && Valid(w)
    requires Stable(v) == p + Stable(w)
    ensures p == []
  {
    if p != [] {
      assert p[0] == Stable(v)[0] == OPEN_BRACKET;
      RunConcat(Out(0), p, Stable(w));
      RunOpened(Out(1), p[1..]);
      ArrayDone(v);
      ArrayNotDone(w, Run(Out(0), p));
    }
  }

  /**
   A canonical array appended to a text without brackets can be split off again, even when the
   other text it is compared with starts with an arbitrary prefix.
   */
  lemma {:induction false} SplitArrayText(prefix: Text, v: Json, other: Text, w: Json)
    requires v.Array? && w.Array? && Valid(v) && Valid(w)
    requires OPEN_BRACKET !in prefix
    requires prefix + Stable(v) == other + Stable(w)
    ensures prefix == other && Stable(v) == Stable(w)
  {
    var whole := prefix + Stable(v);
    assert Stable(w)[0] == OPEN_BRACKET;
    assert (other + Stable(w))[|other|] == OPEN_BRACKET;
    assert forall i :: 0 <= i < |prefix| ==> whole[i] == prefix[i] && prefix[i] in prefix;
    assert |prefix| <= |other|;
    var p := other[|prefix|..];
    assert other == prefix + p by {
      assert other[..|prefix|] == whole[..|prefix|] == prefix;
    }
    assert whole[|prefix|..] == Stable(v);
    assert whole[|prefix|..] == p + Stable(w);
    NoProperSuffix(v, p, w);
    assert other == prefix;
  }
}
