/**
 Version comparison (`document-diff.ts`): a longest-common-subsequence table is filled
 bottom-up, walked forward, and the runs of removals and additions between two kept
 lines are paired into a change report.

 The walk is described by the edit script it follows. What the report says and how
 short the script is are proved about scripts; `DiffLines` is proved against them.
 */
module DocumentDiff {
  import opened Utf16
  import opened Sorting

  datatype Line = Line(text: Text)

  // ----- Normalisation of the extracted lines -----

  /** Line terminators and white space as matched by `\s` and removed by `trim`. */
  predicate IsSpace(c: CodeUnit) {
    9 <= c <= 13 || c == 32 || c == 0xA0 || c == 0x1680 || 0x2000 <= c <= 0x200A
    || c == 0x2028 || c == 0x2029 || c == 0x202F || c == 0x205F || c == 0x3000 || c == 0xFEFF
  }

  function DropSpaces(s: Text): Text {
    if s != [] && IsSpace(s[0]) then DropSpaces(s[1..]) else s
  }

  function DropTrailingSpaces(s: Text): Text {
    if s != [] && IsSpace(s[|s| - 1]) then DropTrailingSpaces(s[..|s| - 1]) else s
  }

  function Trim(s: Text): Text {
    DropTrailingSpaces(DropSpaces(s))
  }

  /** Every run of white space becomes one space. */
  function Collapse(s: Text): Text {
    if s == [] then []
    else if IsSpace(s[0]) then
      (if |s| > 1 && IsSpace(s[1]) then Collapse(s[1..]) else [32] + Collapse(s[1..]))
    else [s[0]] + Collapse(s[1..])
  }

  function Cleaned(values: seq<Text>): seq<Line> {
    if values == [] then []
    else
      var line := Trim(Collapse(values[0]));
      (if |line| >= 2 then [Line(line)] else []) + Cleaned(values[1..])
  }

  /** The first occurrence of each element, in order (a JavaScript `Set` spread). */
  function Distinct<T(==)>(xs: seq<T>): seq<T> {
    if xs == [] then []
    else
      var front := Distinct(xs[..|xs| - 1]);
      var last := xs[|xs| - 1];
      if last in front then front else front + [last]
  }

  const MAX_LINES := 500

  function Normalize(values: seq<Text>): seq<Line> {
    var lines := Distinct(Cleaned(values));
    if |lines| <= MAX_LINES then lines else lines[..MAX_LINES]
  }

  lemma {:induction false} DistinctShape<T>(xs: seq<T>)
    ensures forall x :: x in Distinct(xs) <==> x in xs
    ensures forall i, j :: 0 <= i < j < |Distinct(xs)| ==> Distinct(xs)[i] != Distinct(xs)[j]
  {
    if xs != [] {
      DistinctShape(xs[..|xs| - 1]);
      assert xs == xs[..|xs| - 1] + [xs[|xs| - 1]];
    }
  }

  /** The comparison sees at most 500 lines, without repetition, none shorter than two units. */
  lemma NormalizeShape(values: seq<Text>)
    ensures |Normalize(values)| <= MAX_LINES
    ensures forall i, j :: 0 <= i < j < |Normalize(values)| ==> Normalize(values)[i] != Normalize(values)[j]
    ensures forall i :: 0 <= i < |Normalize(values)| ==> |Normalize(values)[i].text| >= 2
  {
    var lines := Distinct(Cleaned(values));
    DistinctShape(Cleaned(values));
    CleanedLengths(values);
    forall i | 0 <= i < |Normalize(values)|
      ensures |Normalize(values)[i].text| >= 2
    {
      assert Normalize(values)[i] == lines[i];
      assert lines[i] in lines;
    }
  }

  lemma CleanedLengths(values: seq<Text>)
    ensures forall line :: line in Cleaned(values) ==> |line.text| >= 2
  {
  }

  // ----- Edit scripts -----

  datatype Edit = Keep(line: Line) | Add(line: Line) | Remove(line: Line)

  /** The lines a script starts from. */
  function Before(script: seq<Edit>): seq<Line> {
    if script == [] then []
    else if script[0].Add? then Before(script[1..])
    else [script[0].line] + Before(script[1..])
  }

  /** The lines a script ends with. */
  function After(script: seq<Edit>): seq<Line> {
    if script == [] then []
    else if script[0].Remove? then After(script[1..])
    else [script[0].line] + After(script[1..])
  }

  function Kept(script: seq<Edit>): nat {
    if script == [] then 0 else (if script[0].Keep? then 1 else 0) + Kept(script[1..])
  }

  function Changes(script: seq<Edit>): nat {
    if script == [] then 0 else (if script[0].Keep? then 0 else 1) + Changes(script[1..])
  }

  ghost predicate Transforms(script: seq<Edit>, before: seq<Line>, after: seq<Line>) {
    Before(script) == before && After(script) == after
  }

  function Max(x: int, y: int): int {
    if x >= y then x else y
  }

  /** The recurrence the table is filled from, for the suffixes starting at i and j. */
  function Lcs(a: seq<Line>, b: seq<Line>, i: nat, j: nat): (r: nat)
    requires i <= |a| && j <= |b|
    ensures r <= |a| - i && r <= |b| - j
    decreases |a| - i + |b| - j
  {
    if i == |a| || j == |b| then 0
    else if a[i] == b[j] then Lcs(a, b, i + 1, j + 1) + 1
    else Max(Lcs(a, b, i + 1, j), Lcs(a, b, i, j + 1))
  }

  /** Dropping one line costs at most one common line, and never gains one. */
  lemma {:induction false} LcsDrop(a: seq<Line>, b: seq<Line>, i: nat, j: nat)
    requires i <= |a| && j <= |b|
    ensures i < |a| ==> Lcs(a, b, i + 1, j) <= Lcs(a, b, i, j) <= 1 + Lcs(a, b, i + 1, j)
    ensures j < |b| ==> Lcs(a, b, i, j + 1) <= Lcs(a, b, i, j) <= 1 + Lcs(a, b, i, j + 1)
    decreases |a| - i + |b| - j
  {
    if i < |a| && j < |b| {
      LcsDrop(a, b, i + 1, j);
      LcsDrop(a, b, i, j + 1);
      LcsDrop(a, b, i + 1, j + 1);
    }
  }

  /** No script from a to b keeps more lines than the recurrence says. */
  lemma {:induction false} KeptAtMostLcs(
    script: seq<Edit>, a: seq<Line>, b: seq<Line>, i: nat, j: nat)
    requires i <= |a| && j <= |b|
    requires Transforms(script, a[i..], b[j..])
    ensures Kept(script) <= Lcs(a, b, i, j)
  {
    if script != [] {
      LcsDrop(a, b, i, j);
      match script[0] {
        case Keep(_) =>
          assert a[i..][1..] == a[i + 1..] && b[j..][1..] == b[j + 1..];
          KeptAtMostLcs(script[1..], a, b, i + 1, j + 1);
        case Add(_) =>
          assert b[j..][1..] == b[j + 1..];
          KeptAtMostLcs(script[1..], a, b, i, j + 1);
        case Remove(_) =>
          assert a[i..][1..] == a[i + 1..];
          KeptAtMostLcs(script[1..], a, b, i + 1, j);
      }
    }
  }

  lemma {:induction false} ChangesCount(script: seq<Edit>)
    ensures Changes(script) + 2 * Kept(script) == |Before(script)| + |After(script)|
  {
    if script != [] {
      ChangesCount(script[1..]);
    }
  }

  /** The forward walk from positions i and j, reading exact lengths instead of table cells. */
  function Walk(a: seq<Line>, b: seq<Line>, i: nat, j: nat): seq<Edit>
    requires i <= |a| && j <= |b|
    decreases |a| - i + |b| - j
  {
    if i == |a| && j == |b| then []
    else if i < |a| && j < |b| && a[i] == b[j] then [Keep(a[i])] + Walk(a, b, i + 1, j + 1)
    else if j < |b| && (i == |a| || Lcs(a, b, i, j + 1) >= Lcs(a, b, i + 1, j)) then
      [Add(b[j])] + Walk(a, b, i, j + 1)
    else [Remove(a[i])] + Walk(a, b, i + 1, j)
  }

  lemma {:induction false} TransformsCons(e: Edit, script: seq<Edit>, before: seq<Line>, after: seq<Line>)
    requires Transforms(script, before, after)
    ensures Transforms([e] + script, if e.Add? then before else [e.line] + before, if e.Remove? then after else [e.line] + after)
    ensures Kept([e] + script) == Kept(script) + if e.Keep? then 1 else 0
  {
    assert ([e] + script)[1..] == script;
  }

  lemma {:induction false} WalkKeepsLcs(a: seq<Line>, b: seq<Line>, i: nat, j: nat)
    requires i <= |a| && j <= |b|
    ensures Transforms(Walk(a, b, i, j), a[i..], b[j..])
    ensures Kept(Walk(a, b, i, j)) == Lcs(a, b, i, j)
    decreases |a| - i + |b| - j
  {
    if i == |a| && j == |b| {
      return;
    }
    assert i < |a| ==> a[i..] == [a[i]] + a[i + 1..];
    assert j < |b| ==> b[j..] == [b[j]] + b[j + 1..];
    if i < |a| && j < |b| && a[i] == b[j] {
      WalkKeepsLcs(a, b, i + 1, j + 1);
      TransformsCons(Keep(a[i]), Walk(a, b, i + 1, j + 1), a[i + 1..], b[j + 1..]);
    } else if j < |b| && (i == |a| || Lcs(a, b, i, j + 1) >= Lcs(a, b, i + 1, j)) {
      WalkKeepsLcs(a, b, i, j + 1);
      TransformsCons(Add(b[j]), Walk(a, b, i, j + 1), a[i..], b[j + 1..]);
    } else {
      WalkKeepsLcs(a, b, i + 1, j);
      TransformsCons(Remove(a[i]), Walk(a, b, i + 1, j), a[i + 1..], b[j..]);
    }
  }

  /** The walk is a shortest edit script: no script turning a into b has fewer changes. */
  lemma {:induction false} WalkIsShortest(a: seq<Line>, b: seq<Line>, other: seq<Edit>)
    requires Transforms(other, a, b)
    ensures Transforms(Walk(a, b, 0, 0), a, b)
    ensures Changes(Walk(a, b, 0, 0)) <= Changes(other)
    ensures Changes(Walk(a, b, 0, 0)) == |a| + |b| - 2 * Lcs(a, b, 0, 0)
  {
    assert a[0..] == a && b[0..] == b;
    WalkKeepsLcs(a, b, 0, 0);
    KeptAtMostLcs(other, a, b, 0, 0);
    ChangesCount(Walk(a, b, 0, 0));
    ChangesCount(other);
  }

  /** The script keeps the line it starts from, after some additions. */
  predicate KeepsFirst(script: seq<Edit>) {
    script != [] && (script[0].Keep? || (script[0].Add? && KeepsFirst(script[1..])))
  }

  /**
   The choice on ties: a line of the old text is removed only where no shortest script could still
   keep it.
   */
  lemma {:induction false} WalkRemovesOnlyIfNoneKeeps(a: seq<Line>, b: seq<Line>, i: nat, j: nat, other: seq<Edit>)
    requires i < |a| && j <= |b|
    requires Transforms(other, a[i..], b[j..]) && KeepsFirst(other) && Kept(other) == Lcs(a, b, i, j)
    ensures !Walk(a, b, i, j)[0].Remove?
  {
    if j < |b| && other[0].Add? {
      assert b[j..][1..] == b[j + 1..];
      KeptAtMostLcs(other[1..], a, b, i, j + 1);
      LcsDrop(a, b, i, j);
    }
  }

  // ----- The report of a script -----

  datatype Change = Change(before: Line, after: Line)

  datatype Details = Details(added: seq<Line>, removed: seq<Line>, modified: seq<Change>)

  function Absent(lines: seq<Line>, present: set<Line>): seq<Line> {
    if lines == [] then []
    else if lines[0] in present then Absent(lines[1..], present)
    else [lines[0]] + Absent(lines[1..], present)
  }

  function Pair(removed: seq<Line>, added: seq<Line>): seq<Change>
    requires |removed| == |added|
  {
    seq(|removed|, k requires 0 <= k < |removed| => Change(removed[k], added[k]))
  }

  function Min(x: nat, y: nat): nat {
    if x <= y then x else y
  }

  /** What a flush reports for one run of removals and additions. */
  function RunReport(removedRun: seq<Line>, addedRun: seq<Line>, inBefore: set<Line>, inAfter: set<Line>): Details {
    var removed := Absent(removedRun, inAfter);
    var added := Absent(addedRun, inBefore);
    var pairs := Min(|removed|, |added|);
    Details(added[pairs..], removed[pairs..], Pair(removed[..pairs], added[..pairs]))
  }

  function Append(x: Details, y: Details): Details {
    Details(x.added + y.added, x.removed + y.removed, x.modified + y.modified)
  }

  /** The longest suffix of a script that contains no kept line. */
  function LastRun(script: seq<Edit>): seq<Edit> {
    if script == [] || script[|script| - 1].Keep? then []
    else LastRun(script[..|script| - 1]) + [script[|script| - 1]]
  }

  /** Everything reported up to, and not including, the last run. */
  function Flushed(script: seq<Edit>, inBefore: set<Line>, inAfter: set<Line>): Details
    decreases |script|, 0
  {
    if script == [] then Details([], [], [])
    else
      var front := script[..|script| - 1];
      if script[|script| - 1].Keep? then Report(front, inBefore, inAfter) else Flushed(front, inBefore, inAfter)
  }

  function Report(script: seq<Edit>, inBefore: set<Line>, inAfter: set<Line>): Details
    decreases |script|, 1
  {
    var run := LastRun(script);
    Append(Flushed(script, inBefore, inAfter), RunReport(Before(run), After(run), inBefore, inAfter))
  }

  lemma {:induction false} ScriptSnoc(script: seq<Edit>, e: Edit)
    ensures Before(script + [e]) == Before(script) + (if e.Add? then [] else [e.line])
    ensures After(script + [e]) == After(script) + (if e.Remove? then [] else [e.line])
  {
    if script == [] {
      assert script + [e] == [e];
    } else {
      assert (script + [e])[1..] == script[1..] + [e];
      ScriptSnoc(script[1..], e);
    }
  }

  lemma {:induction false} ScriptCounts(script: seq<Edit>, e: Edit, x: Line)
    ensures multiset(Before(script + [e]))[x] == multiset(Before(script))[x] + (if !e.Add? && e.line == x then 1 else 0)
    ensures multiset(After(script + [e]))[x] == multiset(After(script))[x] + (if !e.Remove? && e.line == x then 1 else 0)
  {
    ScriptSnoc(script, e);
  }

  lemma {:induction false} AbsentCounts(lines: seq<Line>, present: set<Line>, x: Line)
    ensures multiset(Absent(lines, present))[x] == if x in present then 0 else multiset(lines)[x]
  {
    if lines != [] {
      AbsentCounts(lines[1..], present, x);
      assert lines == [lines[0]] + lines[1..];
    }
  }

  /** The two sides of the modified pairs. */
  function Befores(modified: seq<Change>): seq<Line> {
    seq(|modified|, k requires 0 <= k < |modified| => modified[k].before)
  }

  function Afters(modified: seq<Change>): seq<Line> {
    seq(|modified|, k requires 0 <= k < |modified| => modified[k].after)
  }

  function AddedCount(d: Details, x: Line): nat {
    multiset(d.added)[x] + multiset(Afters(d.modified))[x]
  }

  function RemovedCount(d: Details, x: Line): nat {
    multiset(d.removed)[x] + multiset(Befores(d.modified))[x]
  }

  lemma AppendCounts(d: Details, e: Details, x: Line)
    ensures AddedCount(Append(d, e), x) == AddedCount(d, x) + AddedCount(e, x)
    ensures RemovedCount(Append(d, e), x) == RemovedCount(d, x) + RemovedCount(e, x)
  {
    assert Afters(d.modified + e.modified) == Afters(d.modified) + Afters(e.modified);
    assert Befores(d.modified + e.modified) == Befores(d.modified) + Befores(e.modified);
  }

  lemma SplitCounts(lines: seq<Line>, n: nat, x: Line)
    requires n <= |lines|
    ensures multiset(lines)[x] == multiset(lines[..n])[x] + multiset(lines[n..])[x]
  {
    assert lines == lines[..n] + lines[n..];
  }

  lemma PairSides(removed: seq<Line>, added: seq<Line>)
    requires |removed| == |added|
    ensures Befores(Pair(removed, added)) == removed && Afters(Pair(removed, added)) == added
  {
  }

  /**
   Between two kept lines, the n-th vanished line is paired with the n-th new line, in order,
   until one side runs out; only the other side is then reported alone.
   */
  lemma {:induction false} RunPairsInOrder(
    removedRun: seq<Line>, addedRun: seq<Line>, inBefore: set<Line>, inAfter: set<Line>)
    ensures var d := RunReport(removedRun, addedRun, inBefore, inAfter);
            && Befores(d.modified) + d.removed == Absent(removedRun, inAfter)
            && Afters(d.modified) + d.added == Absent(addedRun, inBefore)
            && (d.added == [] || d.removed == [])
  {
    var removed, added := Absent(removedRun, inAfter), Absent(addedRun, inBefore);
    var pairs := Min(|removed|, |added|);
    PairSides(removed[..pairs], added[..pairs]);
    assert removed[..pairs] + removed[pairs..] == removed && added[..pairs] + added[pairs..] == added;
  }

  lemma {:induction false} RunCounts(
    removedRun: seq<Line>, addedRun: seq<Line>, inBefore: set<Line>, inAfter: set<Line>, x: Line)
    ensures var d := RunReport(removedRun, addedRun, inBefore, inAfter);
            && AddedCount(d, x) == (if x in inBefore then 0 else multiset(addedRun)[x])
            && RemovedCount(d, x) == (if x in inAfter then 0 else multiset(removedRun)[x])
  {
    var removed, added := Absent(removedRun, inAfter), Absent(addedRun, inBefore);
    var pairs := Min(|removed|, |added|);
    AbsentCounts(removedRun, inAfter, x);
    AbsentCounts(addedRun, inBefore, x);
    PairSides(removed[..pairs], added[..pairs]);
    SplitCounts(removed, pairs, x);
    SplitCounts(added, pairs, x);
  }

  ghost predicate KeptLinesIn(script: seq<Edit>, inBefore: set<Line>, inAfter: set<Line>) {
    forall i :: 0 <= i < |script| && script[i].Keep? ==> script[i].line in inBefore && script[i].line in inAfter
  }

  /** d reports x as often as the script adds or removes it, unless x is on both sides. */
  ghost predicate Accounts(d: Details, script: seq<Edit>, inBefore: set<Line>, inAfter: set<Line>, x: Line) {
    && AddedCount(d, x) == (if x in inBefore then 0 else multiset(After(script))[x])
    && RemovedCount(d, x) == (if x in inAfter then 0 else multiset(Before(script))[x])
  }

  lemma {:induction false} ReportSplits(
    script: seq<Edit>, inBefore: set<Line>, inAfter: set<Line>, x: Line)
    ensures AddedCount(Report(script, inBefore, inAfter), x)
         == AddedCount(Flushed(script, inBefore, inAfter), x)
            + (if x in inBefore then 0 else multiset(After(LastRun(script)))[x])
    ensures RemovedCount(Report(script, inBefore, inAfter), x)
         == RemovedCount(Flushed(script, inBefore, inAfter), x)
            + (if x in inAfter then 0 else multiset(Before(LastRun(script)))[x])
  {
    var run := LastRun(script);
    AppendCounts(Flushed(script, inBefore, inAfter), RunReport(Before(run), After(run), inBefore, inAfter), x);
    RunCounts(Before(run), After(run), inBefore, inAfter, x);
  }

  lemma {:induction false} KeepAccounts(
    front: seq<Edit>, e: Edit, inBefore: set<Line>, inAfter: set<Line>, x: Line)
    requires e.Keep? && e.line in inBefore && e.line in inAfter
    requires Accounts(Report(front, inBefore, inAfter), front, inBefore, inAfter, x)
    ensures Accounts(Report(front + [e], inBefore, inAfter), front + [e], inBefore, inAfter, x)
  {
    assert (front + [e])[..|front|] == front;
    ScriptSnoc(front, e);
    ReportSplits(front + [e], inBefore, inAfter, x);
  }

  lemma RunExtends(front: seq<Edit>, e: Edit, inBefore: set<Line>, inAfter: set<Line>)
    requires !e.Keep?
    ensures LastRun(front + [e]) == LastRun(front) + [e]
    ensures Flushed(front + [e], inBefore, inAfter) == Flushed(front, inBefore, inAfter)
  {
    assert (front + [e])[..|front|] == front;
  }

  lemma {:induction false} RunAccounts(
    front: seq<Edit>, e: Edit, inBefore: set<Line>, inAfter: set<Line>, x: Line)
    requires !e.Keep?
    requires Accounts(Report(front, inBefore, inAfter), front, inBefore, inAfter, x)
    ensures Accounts(Report(front + [e], inBefore, inAfter), front + [e], inBefore, inAfter, x)
  {
    RunExtends(front, e, inBefore, inAfter);
    ReportSplits(front, inBefore, inAfter, x);
    ReportSplits(front + [e], inBefore, inAfter, x);
    ScriptCounts(LastRun(front), e, x);
    ScriptCounts(front, e, x);
  }

  lemma {:induction false} ReportCounts(
    script: seq<Edit>, inBefore: set<Line>, inAfter: set<Line>, x: Line)
    requires KeptLinesIn(script, inBefore, inAfter)
    ensures Accounts(Report(script, inBefore, inAfter), script, inBefore, inAfter, x)
  {
    if script == [] {
      AppendCounts(Details([], [], []), RunReport([], [], inBefore, inAfter), x);
      RunCounts([], [], inBefore, inAfter, x);
    } else {
      var front, e := script[..|script| - 1], script[|script| - 1];
      assert script == front + [e];
      ReportCounts(front, inBefore, inAfter, x);
      if e.Keep? {
        KeepAccounts(front, e, inBefore, inAfter, x);
      } else {
        RunAccounts(front, e, inBefore, inAfter, x);
      }
    }
  }

  function SetOf(lines: seq<Line>): set<Line> {
    set line | line in lines
  }

  lemma {:induction false} ScriptLines(script: seq<Edit>)
    ensures KeptLinesIn(script, SetOf(Before(script)), SetOf(After(script)))
  {
    if script != [] {
      ScriptLines(script[1..]);
      forall i | 0 <= i < |script| && script[i].Keep?
        ensures script[i].line in SetOf(Before(script)) && script[i].line in SetOf(After(script))
      {
        if i > 0 {
          assert script[1..][i - 1] == script[i];
        }
      }
    }
  }

  /**
   Whatever script the walk follows, the report accounts exactly for the lines: each line
   absent from `before` is reported as added (alone or as a new side) as often as it occurs in
   `after`, and a line present on both sides is never reported; symmetrically for removals.
   */
  lemma ReportAccountsForLines(
    before: seq<Line>, after: seq<Line>, script: seq<Edit>, x: Line)
    requires Transforms(script, before, after)
    ensures var d := Report(script, SetOf(before), SetOf(after));
            && AddedCount(d, x) == (if x in before then 0 else multiset(after)[x])
            && RemovedCount(d, x) == (if x in after then 0 else multiset(before)[x])
  {
    ScriptLines(script);
    ReportCounts(script, SetOf(before), SetOf(after), x);
  }

  lemma {:induction false} SomethingCounted(d: Details)
    requires d != Details([], [], [])
    ensures exists x :: AddedCount(d, x) + RemovedCount(d, x) > 0
  {
    if d.added != [] {
      assert AddedCount(d, d.added[0]) > 0;
    } else if d.removed != [] {
      assert RemovedCount(d, d.removed[0]) > 0;
    } else {
      assert Afters(d.modified)[0] == d.modified[0].after;
      assert AddedCount(d, d.modified[0].after) > 0;
    }
  }

  /** Moving lines around is no change: the report is empty exactly when both texts have the same lines. */
  lemma {:induction false} SameLinesEmptyReport(
    before: seq<Line>, after: seq<Line>, script: seq<Edit>)
    requires Transforms(script, before, after)
    ensures (forall x :: x in before <==> x in after) <==>
            Report(script, SetOf(before), SetOf(after)) == Details([], [], [])
  {
    var d := Report(script, SetOf(before), SetOf(after));
    forall x
      ensures AddedCount(d, x) == (if x in before then 0 else multiset(after)[x])
      ensures RemovedCount(d, x) == (if x in after then 0 else multiset(before)[x])
    {
      ReportAccountsForLines(before, after, script, x);
    }
    if d != Details([], [], []) {
      SomethingCounted(d);
      var x :| AddedCount(d, x) + RemovedCount(d, x) > 0;
      assert (x in before) != (x in after);
    }
    if !(forall x :: x in before <==> x in after) {
      var x :| (x in before) != (x in after);
      assert AddedCount(d, x) + RemovedCount(d, x) > 0;
    }
  }

  // ----- A modified pair is a removal and an addition at the same place -----

  /** Both edits of the change lie in the script with no kept line between them. */
  ghost predicate SamePlace(script: seq<Edit>, change: Change) {
    exists i, k :: 0 <= i < |script| && 0 <= k < |script|
                   && script[i] == Remove(change.before) && script[k] == Add(change.after)
                   && forall m :: (i < m < k || k < m < i) ==> !script[m].Keep?
  }

  lemma SamePlaceExtends(front: seq<Edit>, script: seq<Edit>, change: Change)
    requires front <= script && SamePlace(front, change)
    ensures SamePlace(script, change)
  {
    var i, k :| 0 <= i < |front| && 0 <= k < |front|
                && front[i] == Remove(change.before) && front[k] == Add(change.after)
                && forall m :: (i < m < k || k < m < i) ==> !front[m].Keep?;
    assert script[i] == front[i] && script[k] == front[k];
  }

  lemma {:induction false} LastRunIsSuffix(script: seq<Edit>)
    ensures |LastRun(script)| <= |script|
    ensures script[|script| - |LastRun(script)|..] == LastRun(script)
    ensures forall i :: 0 <= i < |LastRun(script)| ==> !LastRun(script)[i].Keep?
  {
    if script != [] && !script[|script| - 1].Keep? {
      LastRunIsSuffix(script[..|script| - 1]);
    }
  }

  lemma {:induction false} AbsentComesFrom(lines: seq<Line>, present: set<Line>)
    ensures forall x :: x in Absent(lines, present) ==> x in lines
  {
    forall x | x in Absent(lines, present)
      ensures x in lines
    {
      AbsentCounts(lines, present, x);
    }
  }

  /** A line of a run without kept lines comes from an edit of the run. */
  lemma {:induction false} RunLine(run: seq<Edit>, x: Line)
    requires forall i :: 0 <= i < |run| ==> !run[i].Keep?
    ensures x in Before(run) ==> Remove(x) in run
    ensures x in After(run) ==> Add(x) in run
  {
    if run != [] {
      RunLine(run[1..], x);
    }
  }

  lemma {:induction false} ModifiedAtSamePlace(
    script: seq<Edit>, inBefore: set<Line>, inAfter: set<Line>)
    ensures forall change :: change in Report(script, inBefore, inAfter).modified ==> SamePlace(script, change)
  {
    if script != [] {
      var front, run := script[..|script| - 1], LastRun(script);
      ModifiedAtSamePlace(front, inBefore, inAfter);
      LastRunIsSuffix(script);
      forall change | change in Report(script, inBefore, inAfter).modified
        ensures SamePlace(script, change)
      {
        if change in Flushed(script, inBefore, inAfter).modified {
          assert change in Report(front, inBefore, inAfter).modified;
          SamePlaceExtends(front, script, change);
        } else {
          AbsentComesFrom(Before(run), inAfter);
          AbsentComesFrom(After(run), inBefore);
          SamePlaceInRun(script, run, change);
        }
      }
    }
  }

  lemma {:induction false} SamePlaceInRun(script: seq<Edit>, run: seq<Edit>, change: Change)
    requires |run| <= |script| && script[|script| - |run|..] == run
    requires forall i :: 0 <= i < |run| ==> !run[i].Keep?
    requires change.before in Before(run) && change.after in After(run)
    ensures SamePlace(script, change)
  {
    RunLine(run, change.before);
    RunLine(run, change.after);
    var i: nat :| i < |run| && run[i] == Remove(change.before);
    var k: nat :| k < |run| && run[k] == Add(change.after);
    var start := |script| - |run|;
    forall m | start <= m < |script|
      ensures script[m] == run[m - start] && !script[m].Keep?
    {
      assert script[start..][m - start] == run[m - start];
    }
    SamePlaceAt(script, change, start + i, start + k);
  }

  lemma {:induction false} SamePlaceAt(script: seq<Edit>, change: Change, i: nat, k: nat)
    requires i < |script| && k < |script| && script[i] == Remove(change.before) && script[k] == Add(change.after)
    requires forall m :: (i < m < k || k < m < i) ==> !script[m].Keep?
    ensures SamePlace(script, change)
  {
  }

  // ----- The report keeps the order of the texts -----

  lemma {:induction false} AbsentInOrder(lines: seq<Line>, present: set<Line>)
    ensures InOrder(Absent(lines, present), lines)
  {
    if lines == [] {
      EmptyInOrder<Line>([]);
    } else {
      AbsentInOrder(lines[1..], present);
      InOrderCons(lines[0], Absent(lines[1..], present), lines[1..]);
      assert [lines[0]] + lines[1..] == lines;
    }
  }

  /** All four lists of the details follow the order of the text they come from. */
  ghost predicate DetailsInOrder(d: Details, before: seq<Line>, after: seq<Line>) {
    && InOrder(d.removed, before) && InOrder(Befores(d.modified), before)
    && InOrder(d.added, after) && InOrder(Afters(d.modified), after)
  }

  lemma {:induction false} RunInOrder(removedRun: seq<Line>, addedRun: seq<Line>, inBefore: set<Line>, inAfter: set<Line>)
    ensures DetailsInOrder(RunReport(removedRun, addedRun, inBefore, inAfter), removedRun, addedRun)
  {
    var removed, added := Absent(removedRun, inAfter), Absent(addedRun, inBefore);
    var pairs := Min(|removed|, |added|);
    AbsentInOrder(removedRun, inAfter);
    AbsentInOrder(addedRun, inBefore);
    PairSides(removed[..pairs], added[..pairs]);
    InOrderSlice(removed, removedRun, 0, pairs);
    InOrderSlice(removed, removedRun, pairs, |removed|);
    InOrderSlice(added, addedRun, 0, pairs);
    InOrderSlice(added, addedRun, pairs, |added|);
    assert removed[0..pairs] == removed[..pairs] && removed[pairs..|removed|] == removed[pairs..];
    assert added[0..pairs] == added[..pairs] && added[pairs..|added|] == added[pairs..];
  }

  lemma {:induction false} AppendInOrder(
    d: Details, before: seq<Line>, after: seq<Line>, e: Details, moreBefore: seq<Line>, moreAfter: seq<Line>)
    requires DetailsInOrder(d, before, after) && DetailsInOrder(e, moreBefore, moreAfter)
    ensures DetailsInOrder(Append(d, e), before + moreBefore, after + moreAfter)
  {
    assert Befores(d.modified + e.modified) == Befores(d.modified) + Befores(e.modified);
    assert Afters(d.modified + e.modified) == Afters(d.modified) + Afters(e.modified);
    InOrderConcat(d.removed, before, e.removed, moreBefore);
    InOrderConcat(d.added, after, e.added, moreAfter);
    InOrderConcat(Befores(d.modified), before, Befores(e.modified), moreBefore);
    InOrderConcat(Afters(d.modified), after, Afters(e.modified), moreAfter);
  }

  /** What a script does before its last run. */
  function BeforeRun(script: seq<Edit>): seq<Edit> {
    if script == [] || script[|script| - 1].Keep? then script else BeforeRun(script[..|script| - 1])
  }

  lemma {:induction false} RunSplits(script: seq<Edit>)
    ensures Before(script) == Before(BeforeRun(script)) + Before(LastRun(script))
    ensures After(script) == After(BeforeRun(script)) + After(LastRun(script))
  {
    if script != [] && !script[|script| - 1].Keep? {
      var front, e := script[..|script| - 1], script[|script| - 1];
      RunSplits(front);
      assert script == front + [e] && LastRun(script) == LastRun(front) + [e];
      ScriptSnoc(front, e);
      ScriptSnoc(LastRun(front), e);
      Associate(Before(BeforeRun(front)), Before(LastRun(front)), if e.Add? then [] else [e.line]);
      Associate(After(BeforeRun(front)), After(LastRun(front)), if e.Remove? then [] else [e.line]);
    }
  }

  lemma {:induction false} Associate(x: seq<Line>, y: seq<Line>, z: seq<Line>)
    ensures (x + y) + z == x + (y + z)
  {
  }

  lemma {:induction false} LongerInOrder(d: Details, before: seq<Line>, after: seq<Line>, moreBefore: seq<Line>, moreAfter: seq<Line>)
    requires DetailsInOrder(d, before, after)
    ensures DetailsInOrder(d, before + moreBefore, after + moreAfter)
  {
    var nothing := Details([], [], []);
    EmptyInOrder(moreBefore);
    EmptyInOrder(moreAfter);
    assert Befores([]) == [] && Afters([]) == [];
    AppendInOrder(d, before, after, nothing, moreBefore, moreAfter);
    assert Append(d, nothing) == d;
  }

  lemma {:induction false} FlushedInOrder(script: seq<Edit>, inBefore: set<Line>, inAfter: set<Line>)
    ensures DetailsInOrder(Flushed(script, inBefore, inAfter), Before(BeforeRun(script)), After(BeforeRun(script)))
    decreases |script|, 0
  {
    if script == [] {
      EmptyInOrder<Line>([]);
      assert Befores([]) == [] && Afters([]) == [];
    } else {
      var front, e := script[..|script| - 1], script[|script| - 1];
      assert script == front + [e];
      if e.Keep? {
        ReportInOrder(front, inBefore, inAfter);
        ScriptSnoc(front, e);
        LongerInOrder(Report(front, inBefore, inAfter), Before(front), After(front), [e.line], [e.line]);
      } else {
        FlushedInOrder(front, inBefore, inAfter);
      }
    }
  }

  /**
   Whatever script the walk follows, removed lines and the old sides of changes come in the order
   of the old text, added lines and the new sides in the order of the new one.
   */
  lemma {:induction false} ReportInOrder(script: seq<Edit>, inBefore: set<Line>, inAfter: set<Line>)
    ensures DetailsInOrder(Report(script, inBefore, inAfter), Before(script), After(script))
    decreases |script|, 1
  {
    var run := LastRun(script);
    FlushedInOrder(script, inBefore, inAfter);
    RunInOrder(Before(run), After(run), inBefore, inAfter);
    RunSplits(script);
    AppendInOrder(Flushed(script, inBefore, inAfter), Before(BeforeRun(script)), After(BeforeRun(script)),
                  RunReport(Before(run), After(run), inBefore, inAfter), Before(run), After(run));
  }

  // ----- The table, the walk and the report as the program computes them -----

  newtype Uint16 = x: int | 0 <= x < 0x1_0000

  /** An entry cannot wrap as long as one side has at most 65535 lines. */
  ghost predicate TableFits(before: seq<Line>, after: seq<Line>) {
    |before| < 0x1_0000 || |after| < 0x1_0000
  }

  ghost predicate RowExact(common: array2<Uint16>, before: seq<Line>, after: seq<Line>, i: nat, from: nat)
    requires common.Length0 == |before| + 1 && common.Length1 == |after| + 1
    requires i <= |before| && from <= |after|
    reads common
  {
    forall q :: from <= q <= |after| ==> common[i, q] as int == Lcs(before, after, i, q)
  }

  /** The whole table holds the LCS lengths of the suffixes. */
  ghost predicate TableExact(common: array2<Uint16>, before: seq<Line>, after: seq<Line>)
    requires common.Length0 == |before| + 1 && common.Length1 == |after| + 1
    reads common
  {
    forall p, q :: 0 <= p <= |before| && 0 <= q <= |after| ==> common[p, q] as int == Lcs(before, after, p, q)
  }

  /** One pass of the outer loop: row i from row i + 1. */
  method FillRow(common: array2<Uint16>, before: seq<Line>, after: seq<Line>, i: nat)
    requires common.Length0 == |before| + 1 && common.Length1 == |after| + 1
    requires i < |before| && common[i, |after|] == 0
    modifies common
    ensures forall p, q :: 0 <= p <= |before| && 0 <= q <= |after| && p != i ==> common[p, q] == old(common[p, q])
    ensures common[i, |after|] == 0
    ensures TableFits(before, after) && old(RowExact(common, before, after, i + 1, 0)) ==>
              RowExact(common, before, after, i, 0)
  {
    for j := |after| downto 0
      invariant forall p, q :: 0 <= p <= |before| && 0 <= q <= |after| && p != i ==> common[p, q] == old(common[p, q])
      invariant common[i, |after|] == 0
      invariant TableFits(before, after) && old(RowExact(common, before, after, i + 1, 0)) ==>
                  RowExact(common, before, after, i, j)
    {
      common[i, j] :=
        if before[i] == after[j] then ((common[i + 1, j + 1] as int + 1) % 0x1_0000) as Uint16
        else if common[i + 1, j] >= common[i, j + 1] then common[i + 1, j]
        else common[i, j + 1];
    }
  }

  method FillTable(before: seq<Line>, after: seq<Line>) returns (common: array2<Uint16>)
    ensures fresh(common) && common.Length0 == |before| + 1 && common.Length1 == |after| + 1
    ensures TableFits(before, after) ==> TableExact(common, before, after)
  {
    common := new Uint16[|before| + 1, |after| + 1]((_, _) => 0);
    for i := |before| downto 0
      invariant forall p :: 0 <= p <= |before| ==> common[p, |after|] == 0
      invariant TableFits(before, after) ==>
                  forall p, q :: i <= p <= |before| && 0 <= q <= |after| ==>
                                   common[p, q] as int == Lcs(before, after, p, q)
    {
      FillRow(common, before, after, i);
    }
  }

  /** The run buffers and the result that the nested `flush` closure updates. */
  class ChangeReport {
    const inBefore: set<Line>
    const inAfter: set<Line>
    var removedRun: seq<Line>
    var addedRun: seq<Line>
    var details: Details

    /** The object is what following `script` leaves behind. */
    ghost predicate Describes(script: seq<Edit>)
      reads this
    {
      && removedRun == Before(LastRun(script))
      && addedRun == After(LastRun(script))
      && details == Flushed(script, inBefore, inAfter)
    }

    constructor (before: seq<Line>, after: seq<Line>)
      ensures inBefore == SetOf(before) && inAfter == SetOf(after)
      ensures Describes([])
    {
      inBefore, inAfter := SetOf(before), SetOf(after);
      removedRun, addedRun := [], [];
      details := Details([], [], []);
    }

    method Flush()
      modifies this
      ensures details == Append(old(details), RunReport(old(removedRun), old(addedRun), inBefore, inAfter))
      ensures removedRun == [] && addedRun == []
    {
      var removed := Absent(removedRun, inAfter);
      var added := Absent(addedRun, inBefore);
      var pairs := Min(|removed|, |added|);
      for k := 0 to pairs
        invariant details == old(details).(modified := old(details).modified + Pair(removed[..k], added[..k]))
        invariant removedRun == old(removedRun) && addedRun == old(addedRun)
      {
        assert Pair(removed[..k + 1], added[..k + 1]) == Pair(removed[..k], added[..k]) + [Change(removed[k], added[k])];
        details := details.(modified := details.modified + [Change(removed[k], added[k])]);
      }
      details := details.(removed := details.removed + removed[pairs..], added := details.added + added[pairs..]);
      removedRun, addedRun := [], [];
    }

    method PushAdded(line: Line, ghost script: seq<Edit>)
      requires Describes(script)
      modifies this
      ensures Describes(script + [Add(line)])
    {
      addedRun := addedRun + [line];
      assert (script + [Add(line)])[..|script|] == script;
      ScriptSnoc(LastRun(script), Add(line));
    }

    method PushRemoved(line: Line, ghost script: seq<Edit>)
      requires Describes(script)
      modifies this
      ensures Describes(script + [Remove(line)])
    {
      removedRun := removedRun + [line];
      assert (script + [Remove(line)])[..|script|] == script;
      ScriptSnoc(LastRun(script), Remove(line));
    }

    method KeepLine(line: Line, ghost script: seq<Edit>)
      requires Describes(script)
      modifies this
      ensures Describes(script + [Keep(line)])
    {
      Flush();
      assert (script + [Keep(line)])[..|script|] == script;
    }
  }

  /** The report of the shortest script; the specification of the comparison. */
  function DiffReport(before: seq<Line>, after: seq<Line>): Details {
    Report(Walk(before, after, 0, 0), SetOf(before), SetOf(after))
  }

  lemma {:induction false} StepTransforms(
    script: seq<Edit>, before: seq<Line>, after: seq<Line>, i: nat, j: nat, e: Edit)
    requires i <= |before| && j <= |after|
    requires Transforms(script, before[..i], after[..j])
    requires e.Add? || (i < |before| && e.line == before[i])
    requires e.Remove? || (j < |after| && e.line == after[j])
    ensures Transforms(script + [e], before[..i + if e.Add? then 0 else 1], after[..j + if e.Remove? then 0 else 1])
  {
    ScriptSnoc(script, e);
  }

  /** The script followed so far; as long as the table fits, the walk from here completes the whole walk. */
  ghost predicate OnWalk(before: seq<Line>, after: seq<Line>, i: nat, j: nat, script: seq<Edit>)
    requires i <= |before| && j <= |after|
  {
    Transforms(script, before[..i], after[..j])
    && (TableFits(before, after) ==> script + Walk(before, after, i, j) == Walk(before, after, 0, 0))
  }

  /** The edit the walk takes: a common line if there is one, else the better of the two neighbours. */
  ghost predicate Chooses(before: seq<Line>, after: seq<Line>, i: nat, j: nat, e: Edit)
    requires i <= |before| && j <= |after|
  {
    var same := i < |before| && j < |after| && before[i] == after[j];
    match e
    case Keep(line) => same && line == before[i]
    case Add(line) =>
      !same && j < |after| && line == after[j]
      && (TableFits(before, after) ==> i == |before| || Lcs(before, after, i, j + 1) >= Lcs(before, after, i + 1, j))
    case Remove(line) =>
      !same && i < |before| && line == before[i]
      && (TableFits(before, after) ==> j == |after| || Lcs(before, after, i, j + 1) < Lcs(before, after, i + 1, j))
  }

  lemma {:induction false} StepOnWalk(
    before: seq<Line>, after: seq<Line>, i: nat, j: nat, script: seq<Edit>, e: Edit)
    requires i <= |before| && j <= |after| && OnWalk(before, after, i, j, script)
    requires Chooses(before, after, i, j, e)
    ensures OnWalk(before, after, i + if e.Add? then 0 else 1, j + if e.Remove? then 0 else 1, script + [e])
  {
    var rest := Walk(before, after, i + if e.Add? then 0 else 1, j + if e.Remove? then 0 else 1);
    StepTransforms(script, before, after, i, j, e);
    assert (script + [e]) + rest == script + ([e] + rest);
  }

  /** The report of some script from before to after; it accounts exactly for their lines. */
  ghost predicate ReportsSome(d: Details, before: seq<Line>, after: seq<Line>) {
    exists script :: Transforms(script, before, after) && d == Report(script, SetOf(before), SetOf(after))
  }

  /** The report of any script has the right lines in the right order. */
  lemma {:induction false} ReportedOf(d: Details, before: seq<Line>, after: seq<Line>)
    requires ReportsSome(d, before, after)
    ensures DetailsInOrder(d, before, after)
    ensures forall x :: AddedCount(d, x) == if x in before then 0 else multiset(after)[x]
    ensures forall x :: RemovedCount(d, x) == if x in after then 0 else multiset(before)[x]
  {
    var script :| Transforms(script, before, after) && d == Report(script, SetOf(before), SetOf(after));
    ReportInOrder(script, SetOf(before), SetOf(after));
    forall x
      ensures AddedCount(d, x) == if x in before then 0 else multiset(after)[x]
      ensures RemovedCount(d, x) == if x in after then 0 else multiset(before)[x]
    {
      ReportAccountsForLines(before, after, script, x);
    }
  }

  lemma {:induction false} WalkDone(
    d: Details, before: seq<Line>, after: seq<Line>, script: seq<Edit>)
    requires OnWalk(before, after, |before|, |after|, script) && d == Report(script, SetOf(before), SetOf(after))
    ensures ReportsSome(d, before, after)
    ensures TableFits(before, after) ==> d == DiffReport(before, after)
  {
    assert before[..|before|] == before && after[..|after|] == after && script + [] == script;
  }

  /** The forward walk over the table, feeding the report. */
  method WalkTable(
    before: seq<Line>, after: seq<Line>, common: array2<Uint16>, report: ChangeReport)
    returns (ghost script: seq<Edit>)
    requires common.Length0 == |before| + 1 && common.Length1 == |after| + 1
    requires TableFits(before, after) ==> TableExact(common, before, after)
    requires report.Describes([])
    modifies report
    ensures OnWalk(before, after, |before|, |after|, script) && report.Describes(script)
  {
    script := [];
    var i, j := 0, 0;
    while i < |before| || j < |after|
      invariant 0 <= i <= |before| && 0 <= j <= |after|
      invariant OnWalk(before, after, i, j, script)
      invariant report.Describes(script)
      decreases |before| - i + |after| - j
    {
      ghost var edit;
      if i < |before| && j < |after| && before[i] == after[j] {
        edit := Keep(before[i]);
        StepOnWalk(before, after, i, j, script, edit);
        report.KeepLine(before[i], script);
        i, j := i + 1, j + 1;
      } else if j < |after| && (i == |before| || common[i, j + 1] >= common[i + 1, j]) {
        edit := Add(after[j]);
        StepOnWalk(before, after, i, j, script, edit);
        report.PushAdded(after[j], script);
        j := j + 1;
      } else {
        edit := Remove(before[i]);
        StepOnWalk(before, after, i, j, script, edit);
        report.PushRemoved(before[i], script);
        i := i + 1;
      }
      script := script + [edit];
    }
  }

  /**
   The walk ends with the report of a script, the shortest one as long as the table fits. In any
   case the report has exactly the lines that are on one side only, in the order of their text.
   */
  method DiffLines(before: seq<Line>, after: seq<Line>) returns (result: Details)
    ensures ReportsSome(result, before, after)
    ensures TableFits(before, after) ==> result == DiffReport(before, after)
    ensures DetailsInOrder(result, before, after)
    ensures forall x :: AddedCount(result, x) == if x in before then 0 else multiset(after)[x]
    ensures forall x :: RemovedCount(result, x) == if x in after then 0 else multiset(before)[x]
  {
    var common := FillTable(before, after);
    var report := new ChangeReport(before, after);
    ghost var script := WalkTable(before, after, common, report);
    report.Flush();
    result := report.details;
    WalkDone(result, before, after, script);
    ReportedOf(result, before, after);
  }

  /**
   Both extracted texts are normalised, so the table never wraps and the comparison always
   reports the shortest script; each list of the stored details keeps its first 100 entries.
   */
  method CompareDocumentVersions(previous: seq<Text>, current: seq<Text>)
    returns (details: Details, summary: (nat, nat, nat))
    ensures var full := DiffReport(Normalize(previous), Normalize(current));
            && details == Details(Take(full.added, 100), Take(full.removed, 100), Take(full.modified, 100))
    ensures summary == (|details.added|, |details.removed|, |details.modified|)
  {
    var before, after := Normalize(previous), Normalize(current);
    NormalizeShape(previous);
    var changes := DiffLines(before, after);
    details := Details(Take(changes.added, 100), Take(changes.removed, 100), Take(changes.modified, 100));
    summary := (|details.added|, |details.removed|, |details.modified|);
  }
}
