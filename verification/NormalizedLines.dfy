/**
 Which lines a version comparison sees (`normalize` in `document-diff.ts`): the words of each
 extracted line, one space between them, at the place where such a line first appears.
 */
module NormalizedLines {
  import opened Utf16
  import opened Sorting
  import opened DocumentDiff

  /** ECMA-262 sections 12.2 and 12.3: tab, line feed, vertical tab, form feed, carriage return, the space separators and the byte order mark. */
  lemma {:induction false} WhiteSpaceIs(c: CodeUnit)
    ensures IsSpace(c) <==>
            c in {0x09, 0x0A, 0x0B, 0x0C, 0x0D, 0x20, 0xA0, 0x1680, 0x2000, 0x2001, 0x2002, 0x2003, 0x2004, 0x2005, 0x2006,
                  0x2007, 0x2008, 0x2009, 0x200A, 0x2028, 0x2029, 0x202F, 0x205F, 0x3000, 0xFEFF}
  {
  }

  /** The number of characters before the first white space. */
  function WordEnd(s: Text): (n: nat)
    ensures n <= |s| && (forall i :: 0 <= i < n ==> !IsSpace(s[i])) && (n < |s| ==> IsSpace(s[n]))
  {
    if s == [] || IsSpace(s[0]) then 0 else 1 + WordEnd(s[1..])
  }

  /** The maximal stretches without white space. */
  function Words(s: Text): seq<Text>
    decreases |s|
  {
    if s == [] then []
    else if IsSpace(s[0]) then Words(s[1..])
    else
      var n := WordEnd(s);
      [s[..n]] + Words(s[n..])
  }

  function Join(words: seq<Text>): Text {
    if words == [] then []
    else if |words| == 1 then words[0]
    else words[0] + [32] + Join(words[1..])
  }

  lemma {:induction false} WordsAreWords(s: Text)
    ensures forall w :: w in Words(s) ==> w != [] && forall i :: 0 <= i < |w| ==> !IsSpace(w[i])
    decreases |s|
  {
    if s != [] {
      if IsSpace(s[0]) {
        WordsAreWords(s[1..]);
      } else {
        WordsAreWords(s[WordEnd(s)..]);
      }
    }
  }

  /** A character before a word makes it longer; before a space or the end it is a word of its own. */
  lemma {:induction false} WordsCons(c: CodeUnit, s: Text)
    requires !IsSpace(c)
    ensures s == [] || IsSpace(s[0]) ==> Words([c] + s) == [[c]] + Words(s)
    ensures s != [] && !IsSpace(s[0]) ==> Words(s) != [] && Words([c] + s) == [[c] + Words(s)[0]] + Words(s)[1..]
  {
    var t := [c] + s;
    assert t[1..] == s && WordEnd(t) == 1 + WordEnd(s);
    assert t[..WordEnd(t)] == [c] + s[..WordEnd(s)] && t[WordEnd(t)..] == s[WordEnd(s)..];
    if s == [] || IsSpace(s[0]) {
      assert s[..0] == [] && s[0..] == s;
    }
  }

  lemma {:induction false} JoinCons(c: CodeUnit, words: seq<Text>)
    ensures Join([[c]] + words) == [c] + if words == [] then [] else [32] + Join(words)
    ensures words != [] ==> Join([[c] + words[0]] + words[1..]) == [c] + Join(words)
  {
    assert ([[c]] + words)[1..] == words;
    if words != [] {
      assert ([[c] + words[0]] + words[1..])[1..] == words[1..];
    }
  }

  /** The words, with one space before them and one after them or not. */
  ghost function Framed(lead: bool, words: seq<Text>, tail: bool): Text {
    Space(lead) + Join(words) + Space(tail)
  }

  ghost function Space(present: bool): Text {
    if present then [32] else []
  }

  lemma {:induction false} FrameNewWord(c: CodeUnit, words: seq<Text>, tail: bool)
    requires words != []
    ensures [c] + Framed(true, words, tail) == Framed(false, [[c]] + words, tail)
  {
    JoinCons(c, words);
  }

  lemma {:induction false} FrameLongerWord(c: CodeUnit, words: seq<Text>, tail: bool)
    requires words != []
    ensures [c] + Framed(false, words, tail) == Framed(false, [[c] + words[0]] + words[1..], tail)
  {
    JoinCons(c, words);
  }

  lemma {:induction false} FrameLead(words: seq<Text>, tail: bool)
    ensures [32] + Framed(false, words, tail) == Framed(true, words, tail)
  {
    assert [32] + (Join(words) + Space(tail)) == [32] + Join(words) + Space(tail);
  }

  ghost predicate Leads(s: Text) {
    s != [] && IsSpace(s[0])
  }

  ghost predicate Trails(s: Text) {
    s != [] && Words(s) != [] && IsSpace(s[|s| - 1])
  }

  /** Without a word there is nothing but white space. */
  lemma {:induction false} NoWords(s: Text)
    requires Words(s) == []
    ensures forall i :: 0 <= i < |s| ==> IsSpace(s[i])
  {
    if s != [] {
      NoWords(s[1..]);
      assert forall i :: 0 < i < |s| ==> s[i] == s[1..][i - 1];
    }
  }

  lemma {:induction false} CollapseFrames(s: Text)
    ensures Collapse(s) == Framed(Leads(s), Words(s), Trails(s))
  {
    if s != [] {
      CollapseFrames(s[1..]);
      if IsSpace(s[0]) {
        FrameSpace(s);
      } else if |s| > 1 && !IsSpace(s[1]) {
        FrameLetter(s);
      } else {
        FrameLast(s);
      }
    }
  }

  lemma {:induction false} FrameSpace(s: Text)
    requires s != [] && IsSpace(s[0]) && Collapse(s[1..]) == Framed(Leads(s[1..]), Words(s[1..]), Trails(s[1..]))
    ensures Collapse(s) == Framed(Leads(s), Words(s), Trails(s))
  {
    var rest := s[1..];
    assert rest != [] ==> rest[|rest| - 1] == s[|s| - 1] && rest[0] == s[1];
    assert Words(s) == Words(rest) && Trails(s) == Trails(rest);
    if |s| > 1 && IsSpace(s[1]) {
      assert Collapse(s) == Collapse(rest);
    } else {
      assert Collapse(s) == [32] + Collapse(rest);
      FrameLead(Words(rest), Trails(rest));
    }
  }

  lemma {:induction false} FrameLetter(s: Text)
    requires |s| > 1 && !IsSpace(s[0]) && !IsSpace(s[1])
    requires Collapse(s[1..]) == Framed(Leads(s[1..]), Words(s[1..]), Trails(s[1..]))
    ensures Collapse(s) == Framed(Leads(s), Words(s), Trails(s))
  {
    var rest := s[1..];
    assert s == [s[0]] + rest && rest[|rest| - 1] == s[|s| - 1];
    WordsCons(s[0], rest);
    FrameLongerWord(s[0], Words(rest), Trails(rest));
    assert Collapse(s) == [s[0]] + Collapse(rest);
  }

  lemma {:induction false} FrameLast(s: Text)
    requires s != [] && !IsSpace(s[0]) && (|s| > 1 ==> IsSpace(s[1]))
    requires Collapse(s[1..]) == Framed(Leads(s[1..]), Words(s[1..]), Trails(s[1..]))
    ensures Collapse(s) == Framed(Leads(s), Words(s), Trails(s))
  {
    var rest := s[1..];
    assert s == [s[0]] + rest && (rest != [] ==> rest[|rest| - 1] == s[|s| - 1]);
    WordsCons(s[0], rest);
    assert Collapse(s) == [s[0]] + Collapse(rest);
    if Words(rest) == [] {
      NoWords(rest);
    } else {
      FrameNewWord(s[0], Words(rest), Trails(rest));
    }
  }

  // ----- Trimming -----

  lemma {:induction false} JoinEdges(words: seq<Text>)
    requires words != [] && forall w :: w in words ==> w != [] && forall i :: 0 <= i < |w| ==> !IsSpace(w[i])
    ensures Join(words) != [] && !IsSpace(Join(words)[0]) && !IsSpace(Join(words)[|Join(words)| - 1])
  {
    assert words[0] in words;
    if |words| > 1 {
      JoinEdges(words[1..]);
    }
  }

  lemma {:induction false} DropSpacesLead(lead: bool, x: Text)
    requires x != [] && !IsSpace(x[0])
    ensures DropSpaces(Space(lead) + x) == x
  {
    if lead {
      assert (Space(lead) + x)[1..] == x;
    } else {
      assert Space(lead) + x == x;
    }
  }

  lemma {:induction false} DropSpacesTail(x: Text, tail: bool)
    requires x != [] && !IsSpace(x[|x| - 1])
    ensures DropTrailingSpaces(x + Space(tail)) == x
  {
    var s := x + Space(tail);
    if tail {
      assert s[|s| - 1] == 32 && s[..|s| - 1] == x;
      assert DropTrailingSpaces(x) == x;
    } else {
      assert s == x;
    }
  }

  /** A cleaned line is its words with single spaces between them. */
  lemma {:induction false} CleanLineIsWords(s: Text)
    ensures Trim(Collapse(s)) == Join(Words(s))
  {
    CollapseFrames(s);
    WordsAreWords(s);
    if Words(s) != [] {
      JoinEdges(Words(s));
      TrimUnframes(Leads(s), Words(s), Trails(s));
    } else {
      TrimEmpty(Leads(s));
    }
  }

  lemma {:induction false} TrimUnframes(lead: bool, words: seq<Text>, tail: bool)
    requires var x := Join(words); x != [] && !IsSpace(x[0]) && !IsSpace(x[|x| - 1])
    ensures Trim(Framed(lead, words, tail)) == Join(words)
  {
    var x := Join(words);
    assert Framed(lead, words, tail) == Space(lead) + (x + Space(tail));
    DropSpacesLead(lead, x + Space(tail));
    DropSpacesTail(x, tail);
  }

  lemma {:induction false} TrimEmpty(lead: bool)
    ensures Trim(Framed(lead, [], false)) == []
  {
    var s := Framed(lead, [], false);
    assert s == Space(lead);
    assert lead ==> s[1..] == [];
    assert DropSpaces([]) == [];
    assert DropSpaces(s) == [];
  }

  // ----- The list -----

  /** Every extracted line as its words, unless they make less than two characters. */
  function Readable(values: seq<Text>): seq<Line> {
    if values == [] then []
    else (if |Join(Words(values[0]))| >= 2 then [Line(Join(Words(values[0])))] else []) + Readable(values[1..])
  }

  lemma {:induction false} CleanedIsReadable(values: seq<Text>)
    ensures Cleaned(values) == Readable(values)
  {
    if values != [] {
      CleanLineIsWords(values[0]);
      CleanedIsReadable(values[1..]);
    }
  }

  /** The positions of the elements of ys in xs, each at its first occurrence. */
  ghost predicate FirstSeen(positions: seq<nat>, ys: seq<Line>, xs: seq<Line>) {
    Carries(positions, ys, xs) && forall k :: 0 <= k < |positions| ==> ys[k] !in xs[..positions[k]]
  }

  lemma {:induction false} DistinctIsFirstSeen(xs: seq<Line>) returns (positions: seq<nat>)
    ensures FirstSeen(positions, Distinct(xs), xs)
  {
    positions := [];
    if xs != [] {
      var front, last := xs[..|xs| - 1], xs[|xs| - 1];
      var seen := DistinctIsFirstSeen(front);
      DistinctShape(front);
      assert xs == front + [last];
      SeenOneMore(seen, Distinct(front), front, last);
      positions := if last in front then seen else seen + [|front|];
    }
  }

  lemma {:induction false} SeenOneMore(positions: seq<nat>, ys: seq<Line>, xs: seq<Line>, last: Line)
    requires FirstSeen(positions, ys, xs)
    ensures FirstSeen(positions, ys, xs + [last])
    ensures last !in xs ==> FirstSeen(positions + [|xs|], ys + [last], xs + [last])
  {
    forall k | 0 <= k < |positions|
      ensures (xs + [last])[..positions[k]] == xs[..positions[k]]
    {
    }
    assert (xs + [last])[..|xs|] == xs;
  }

  /**
   The comparison sees the readable lines, each once, in the order of their first appearance; all
   of them when there are no more than 500, and otherwise the first 500.
   */
  lemma {:induction false} NormalizeExactly(values: seq<Text>) returns (positions: seq<nat>)
    ensures FirstSeen(positions, Normalize(values), Readable(values))
    ensures |Normalize(values)| < 500 ==> forall line :: line in Readable(values) ==> line in Normalize(values)
    ensures forall line :: line in Readable(values) && line !in Normalize(values) ==> NotBefore(line, positions, Readable(values))
  {
    var lines := Readable(values);
    CleanedIsReadable(values);
    DistinctShape(lines);
    var all := DistinctIsFirstSeen(lines);
    var n := |Normalize(values)|;
    positions := all[..n];
    FrontFirstSeen(all, Distinct(lines), lines, n);
    assert Normalize(values) == Distinct(lines)[..n];
    forall line | line in lines && line !in Normalize(values)
      ensures NotBefore(line, positions, lines)
    {
      SeenLater(all, Distinct(lines), lines, n, line);
    }
  }

  /** The line does not occur before any of these positions. */
  ghost predicate NotBefore(line: Line, positions: seq<nat>, xs: seq<Line>) {
    forall k :: 0 <= k < |positions| && positions[k] <= |xs| ==> line !in xs[..positions[k]]
  }

  lemma {:induction false} FrontFirstSeen(all: seq<nat>, ys: seq<Line>, xs: seq<Line>, n: nat)
    requires FirstSeen(all, ys, xs) && n <= |ys|
    ensures FirstSeen(all[..n], ys[..n], xs)
  {
  }

  /** A line whose first place is beyond the first n positions does not occur before any of them. */
  lemma {:induction false} SeenLater(all: seq<nat>, ys: seq<Line>, xs: seq<Line>, n: nat, line: Line)
    requires FirstSeen(all, ys, xs) && n <= |ys| && line in ys && line !in ys[..n]
    ensures NotBefore(line, all[..n], xs)
  {
    assert forall i :: 0 <= i < n ==> ys[..n][i] == ys[i] && ys[..n][i] in ys[..n];
    var j :| 0 <= j < |ys| && ys[j] == line;
    forall k | 0 <= k < n
      ensures line !in xs[..all[k]]
    {
      assert all[k] < all[j];
      assert forall i :: 0 <= i < all[k] ==> xs[..all[k]][i] == xs[..all[j]][i];
    }
  }
}
