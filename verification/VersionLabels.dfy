/**
 Version numbers and major.minor labels of one document (`version-label.ts`) over uploads,
 restorations and publications. An upload compares its content with the latest version first,
 outside the transaction that later creates the new one.
 */
module VersionLabels {
  import opened Wrappers

  type Locale = string
  type VersionId = nat

  /**
   A version row. `compared` is the version an upload was compared with, if it was an upload;
   `restored` is the number of the version a restoration copied, if it was one.
   */
  datatype Row = Row(
    id: VersionId, locale: Locale, version: int, major: int, minor: int,
    compared: Option<Option<VersionId>>, restored: Option<int>)

  predicate LabelLess(r: Row, q: Row) {
    r.major < q.major || (r.major == q.major && r.minor < q.minor)
  }

  function LocaleRows(rows: seq<Row>, locale: Locale): seq<Row> {
    if rows == [] then []
    else LocaleRows(rows[..|rows| - 1], locale) + (if rows[|rows| - 1].locale == locale then [rows[|rows| - 1]] else [])
  }

  /** `reduce`: the later of two rows wins only with a higher version. */
  function Latest(rows: seq<Row>): Row
    requires rows != []
  {
    if |rows| == 1 then rows[0]
    else
      var left, right := Latest(rows[..|rows| - 1]), rows[|rows| - 1];
      if right.version > left.version then right else left
  }

  function MaxMajor(rows: seq<Row>): int
    requires rows != []
  {
    if |rows| == 1 then rows[0].major
    else
      var left, right := MaxMajor(rows[..|rows| - 1]), rows[|rows| - 1].major;
      if right > left then right else left
  }

  lemma {:induction false} LocaleMembers(rows: seq<Row>, locale: Locale)
    ensures forall r :: r in LocaleRows(rows, locale) <==> r in rows && r.locale == locale
  {
    if rows != [] {
      LocaleMembers(rows[..|rows| - 1], locale);
      assert rows == rows[..|rows| - 1] + [rows[|rows| - 1]];
    }
  }

  lemma {:induction false} LatestIsMax(rows: seq<Row>)
    requires rows != []
    ensures Latest(rows) in rows && forall r :: r in rows ==> r.version <= Latest(rows).version
  {
    if |rows| > 1 {
      LatestIsMax(rows[..|rows| - 1]);
      assert rows == rows[..|rows| - 1] + [rows[|rows| - 1]];
    }
  }

  lemma {:induction false} MaxMajorIsMax(rows: seq<Row>)
    requires rows != []
    ensures forall r :: r in rows ==> r.major <= MaxMajor(rows)
    ensures exists r :: r in rows && r.major == MaxMajor(rows)
  {
    var top := TopRow(rows);
  }

  /** A row that carries the highest major. */
  lemma {:induction false} TopRow(rows: seq<Row>) returns (top: Row)
    requires rows != []
    ensures top in rows && top.major == MaxMajor(rows)
    ensures forall r :: r in rows ==> r.major <= top.major
  {
    top := rows[0];
    if |rows| > 1 {
      var front, last := rows[..|rows| - 1], rows[|rows| - 1];
      top := TopRow(front);
      assert rows == front + [last];
      if last.major > top.major {
        top := last;
      }
    }
  }

  // ----- Publication -----

  /** The latest version of the row's language becomes the next major, unless it is one already. */
  function PromotedRow(rows: seq<Row>, r: Row): Row
    requires r in rows
  {
    LocaleMembers(rows, r.locale);
    var group := LocaleRows(rows, r.locale);
    var latest := Latest(group);
    if r.id == latest.id && latest.minor != 0 then r.(major := MaxMajor(group) + 1, minor := 0) else r
  }

  function Promoted(rows: seq<Row>): (r: seq<Row>)
    ensures |r| == |rows| && forall i :: 0 <= i < |rows| ==> r[i] == PromotedRow(rows, rows[i])
  {
    seq(|rows|, i requires 0 <= i < |rows| => PromotedRow(rows, rows[i]))
  }

  method FindLatest(group: seq<Row>) returns (latest: Row)
    requires group != []
    ensures latest == Latest(group)
  {
    latest := group[0];
    for i := 1 to |group|
      invariant latest == Latest(group[..i])
    {
      assert group[..i + 1][..i] == group[..i];
      if group[i].version > latest.version {
        latest := group[i];
      }
    }
    assert group[..|group|] == group;
  }

  method FindMaxMajor(group: seq<Row>) returns (major: int)
    requires group != []
    ensures major == MaxMajor(group)
  {
    major := group[0].major;
    for i := 1 to |group|
      invariant major == MaxMajor(group[..i])
    {
      assert group[..i + 1][..i] == group[..i];
      if group[i].major > major {
        major := group[i].major;
      }
    }
    assert group[..|group|] == group;
  }

  ghost predicate Grouped(rows: seq<Row>, byLocale: map<Locale, seq<Row>>) {
    forall l: Locale {:trigger LocaleRows(rows, l)} :: LocaleRows(rows, l) == (if l in byLocale then byLocale[l] else []) && (l in byLocale ==> byLocale[l] != [])
  }

  lemma {:induction false} GroupOneMore(
    rows: seq<Row>, row: Row, before: map<Locale, seq<Row>>, after: map<Locale, seq<Row>>)
    requires Grouped(rows, before)
    requires after == before[row.locale := (if row.locale in before then before[row.locale] else []) + [row]]
    ensures Grouped(rows + [row], after)
  {
    var more := rows + [row];
    assert more[..|more| - 1] == rows;
    forall l: Locale
      ensures LocaleRows(more, l) == (if l in after then after[l] else []) && (l in after ==> after[l] != [])
    {
      assert LocaleRows(rows, l) == if l in before then before[l] else [];
    }
  }

  method GroupByLocale(rows: seq<Row>) returns (byLocale: map<Locale, seq<Row>>)
    ensures Grouped(rows, byLocale)
  {
    byLocale := map[];
    for i := 0 to |rows|
      invariant Grouped(rows[..i], byLocale)
    {
      var version := rows[i];
      ghost var before := byLocale;
      byLocale := byLocale[version.locale := (if version.locale in byLocale then byLocale[version.locale] else []) + [version]];
      assert rows[..i + 1] == rows[..i] + [version];
      GroupOneMore(rows[..i], version, before, byLocale);
    }
    assert rows[..|rows|] == rows;
  }

  /** The state of the update loop: the languages in `left` still have their old rows. */
  ghost predicate PromotedBut(versions: seq<Row>, left: set<Locale>, rows: seq<Row>) {
    |rows| == |versions|
    && forall i :: 0 <= i < |rows| ==> rows[i] == PromotedBut1(versions, left, versions[i])
  }

  ghost function PromotedBut1(versions: seq<Row>, left: set<Locale>, r: Row): Row
    requires r in versions
  {
    if r.locale in left then r else PromotedRow(versions, r)
  }

  function Relabelled(rows: seq<Row>, id: VersionId, major: int): (r: seq<Row>)
    ensures |r| == |rows|
    ensures forall i :: 0 <= i < |rows| ==> r[i] == if rows[i].id == id then rows[i].(major := major, minor := 0) else rows[i]
  {
    seq(|rows|, i requires 0 <= i < |rows| => if rows[i].id == id then rows[i].(major := major, minor := 0) else rows[i])
  }

  lemma {:induction false} OneLanguageDone(
    versions: seq<Row>, left: set<Locale>, locale: Locale, rows: seq<Row>, latest: Row)
    requires UniqueIds(versions) && PromotedBut(versions, left, rows) && locale in left
    requires LocaleRows(versions, locale) != [] && latest == Latest(LocaleRows(versions, locale))
    ensures latest.minor == 0 ==> PromotedBut(versions, left - {locale}, rows)
    ensures latest.minor != 0 ==> PromotedBut(versions, left - {locale}, Relabelled(rows, latest.id, MaxMajor(LocaleRows(versions, locale)) + 1))
  {
    LocaleMembers(versions, locale);
    LatestIsMax(LocaleRows(versions, locale));
    var after := if latest.minor == 0 then rows else Relabelled(rows, latest.id, MaxMajor(LocaleRows(versions, locale)) + 1);
    forall i | 0 <= i < |rows|
      ensures after[i] == PromotedBut1(versions, left - {locale}, versions[i])
    {
      var r := versions[i];
      assert rows[i] == PromotedBut1(versions, left, r);
      assert rows[i].id == r.id;
      SameIdSameRow(versions, r, latest);
    }
  }

  class Versions {
    var rows: seq<Row>

    constructor (rows: seq<Row>)
      ensures this.rows == rows
    {
      this.rows := rows;
    }

    method PromoteLatestToMajor()
      requires UniqueIds(rows)
      modifies this
      ensures rows == Promoted(old(rows))
    {
      var versions := rows;
      var byLocale := GroupByLocale(versions);
      var left := byLocale.Keys;
      NothingDone(versions, byLocale);
      while left != {}
        invariant left <= byLocale.Keys
        invariant PromotedBut(versions, left, rows)
        decreases left
      {
        var locale :| locale in left;
        assert byLocale[locale] == LocaleRows(versions, locale);
        var latest := FindLatest(byLocale[locale]);
        OneLanguageDone(versions, left, locale, rows, latest);
        left := left - {locale};
        if latest.minor != 0 {
          var major := FindMaxMajor(byLocale[locale]);
          rows := Relabelled(rows, latest.id, major + 1);
        }
      }
      assert rows == Promoted(versions);
    }
  }

  lemma {:induction false} NothingDone(versions: seq<Row>, byLocale: map<Locale, seq<Row>>)
    requires Grouped(versions, byLocale)
    ensures PromotedBut(versions, byLocale.Keys, versions)
    ensures forall l :: l in byLocale.Keys ==> byLocale[l] == LocaleRows(versions, l) && byLocale[l] != []
  {
    forall i | 0 <= i < |versions|
      ensures versions[i] == PromotedBut1(versions, byLocale.Keys, versions[i])
    {
      LocaleMembers(versions, versions[i].locale);
      assert versions[i] in LocaleRows(versions, versions[i].locale);
    }
    forall l | l in byLocale.Keys
      ensures byLocale[l] == LocaleRows(versions, l) && byLocale[l] != []
    {
      assert LocaleRows(versions, l) == byLocale[l];
    }
  }

  ghost predicate UniqueIds(rows: seq<Row>) {
    forall i, j :: 0 <= i < j < |rows| ==> rows[i].id != rows[j].id
  }

  // ----- Runs -----

  /** Some row has this version number in this language. */
  ghost predicate HasVersion(rows: seq<Row>, locale: Locale, version: int) {
    exists r :: r in rows && r.locale == locale && r.version == version
  }

  ghost predicate UniqueVersions(rows: seq<Row>) {
    forall r, q :: r in rows && q in rows && r.locale == q.locale && r.version == q.version ==> r == q
  }

  /** Version numbers start at 1 and leave no gap. */
  ghost predicate Consecutive(rows: seq<Row>) {
    forall r :: r in rows ==> r.version >= 1 && (r.version > 1 ==> HasVersion(rows, r.locale, r.version - 1))
  }

  ghost predicate LabelsIncrease(rows: seq<Row>) {
    forall r, q :: r in rows && q in rows && r.locale == q.locale && r.version < q.version ==> LabelLess(r, q)
  }

  /** An upload was compared with the version numbered just before it, the first one with nothing. */
  ghost predicate ComparedWithPrevious(rows: seq<Row>) {
    && (forall r :: r in rows && r.version == 1 && r.compared.Some? ==> r.compared.value.None?)
    && (forall r, q :: r in rows && q in rows && r.locale == q.locale && r.version == q.version + 1 && r.compared.Some? ==>
          r.compared.value == Some(q.id))
  }

  ghost predicate LabelsNatural(rows: seq<Row>) {
    forall r :: r in rows ==> r.major >= 0 && r.minor >= 0
  }

  ghost predicate Numbered(rows: seq<Row>) {
    UniqueIds(rows) && UniqueVersions(rows) && Consecutive(rows) && LabelsIncrease(rows) && ComparedWithPrevious(rows)
    && LabelsNatural(rows)
  }

  function LatestId(rows: seq<Row>, locale: Locale): Option<VersionId> {
    var group := LocaleRows(rows, locale);
    if group == [] then None else Some(Latest(group).id)
  }

  /** The row an upload or a restoration creates from the latest one. */
  function NextRow(rows: seq<Row>, locale: Locale, id: VersionId, compared: Option<Option<VersionId>>, restored: Option<int>): Row {
    var group := LocaleRows(rows, locale);
    if group == [] then Row(id, locale, 1, 0, 1, compared, restored)
    else Row(id, locale, Latest(group).version + 1, Latest(group).major, Latest(group).minor + 1, compared, restored)
  }

  /** The rows of the document, and for each upload in flight its language and what it compared with. */
  datatype State = State(rows: seq<Row>, uploads: seq<(Locale, Option<VersionId>)>)

  ghost predicate Compare(s: State, t: State) {
    exists locale: Locale :: t == s.(uploads := s.uploads + [(locale, LatestId(s.rows, locale))])
  }

  ghost predicate FreshId(rows: seq<Row>, id: VersionId) {
    forall r :: r in rows ==> r.id != id
  }

  /** The transaction of an upload refuses when the latest version is no longer the one compared with. */
  ghost predicate CommitUpload(s: State, t: State) {
    exists i, id: VersionId :: 0 <= i < |s.uploads| && FreshId(s.rows, id)
      && var (locale, previous) := s.uploads[i];
         && LatestId(s.rows, locale) == previous
         && t == s.(rows := s.rows + [NextRow(s.rows, locale, id, Some(previous), None)])
  }

  predicate IsCurrent(rows: seq<Row>, source: Row) {
    var group := LocaleRows(rows, source.locale);
    group != [] && Latest(group).version == source.version
  }

  /** A restoration copies an older version to the front; it is not compared with anything. */
  ghost predicate Restore(s: State, t: State) {
    exists source: Row, id: VersionId :: source in s.rows && FreshId(s.rows, id)
      && !IsCurrent(s.rows, source)
      && t == s.(rows := s.rows + [NextRow(s.rows, source.locale, id, None, Some(source.version))])
  }

  ghost predicate Publish(s: State, t: State) {
    t == s.(rows := Promoted(s.rows))
  }

  ghost predicate Step(s: State, t: State) {
    Compare(s, t) || CommitUpload(s, t) || Restore(s, t) || Publish(s, t)
  }

  ghost predicate IsRun(states: seq<State>) {
    states != [] && states[0] == State([], []) && forall k :: 0 < k < |states| ==> Step(states[k - 1], states[k])
  }

  /** What the new row is to the rows of its language. */
  lemma {:induction false} NextRowIsAbove(
    rows: seq<Row>, locale: Locale, id: VersionId, compared: Option<Option<VersionId>>, restored: Option<int>, r: Row)
    requires UniqueVersions(rows) && LabelsIncrease(rows) && r in rows && r.locale == locale
    ensures var row := NextRow(rows, locale, id, compared, restored);
            r.version < row.version && LabelLess(r, row) && (r.version + 1 == row.version ==> LatestId(rows, locale) == Some(r.id))
  {
    var latest := LatestRow(rows, r);
    assert r.version == latest.version || LabelLess(r, latest);
  }

  lemma {:induction false} LatestRow(rows: seq<Row>, r: Row) returns (latest: Row)
    requires UniqueVersions(rows) && r in rows
    ensures LocaleRows(rows, r.locale) != [] && latest == Latest(LocaleRows(rows, r.locale))
    ensures latest in rows && latest.locale == r.locale && r.version <= latest.version
    ensures r.version == latest.version ==> r == latest
  {
    LocaleMembers(rows, r.locale);
    var group := LocaleRows(rows, r.locale);
    assert r in group;
    LatestIsMax(group);
    latest := Latest(group);
  }

  lemma {:induction false} NextRowFollows(
    rows: seq<Row>, locale: Locale, id: VersionId, compared: Option<Option<VersionId>>, restored: Option<int>)
    requires Numbered(rows)
    ensures var row := NextRow(rows, locale, id, compared, restored);
            && row.version >= 1 && row.major >= 0 && row.minor >= 0
            && (row.version > 1 ==> HasVersion(rows, locale, row.version - 1))
            && (row.version == 1 ==> LatestId(rows, locale) == None)
  {
    LocaleMembers(rows, locale);
    var group := LocaleRows(rows, locale);
    if group != [] {
      LatestIsMax(group);
      assert Latest(group) in rows;
    }
  }

  /** The latest row of a language has the highest label, so its successor extends the order. */
  lemma {:induction false} AppendKeeps(
    rows: seq<Row>, locale: Locale, id: VersionId, compared: Option<Option<VersionId>>, restored: Option<int>)
    requires Numbered(rows) && FreshId(rows, id)
    requires compared.Some? ==> compared.value == LatestId(rows, locale)
    ensures Numbered(rows + [NextRow(rows, locale, id, compared, restored)])
  {
    var row := NextRow(rows, locale, id, compared, restored);
    NextRowFollows(rows, locale, id, compared, restored);
    forall r | r in rows && r.locale == locale
      ensures r.version < row.version && LabelLess(r, row) && (r.version + 1 == row.version ==> LatestId(rows, locale) == Some(r.id))
    {
      NextRowIsAbove(rows, locale, id, compared, restored, r);
    }
    AppendKeepsNumbers(rows, row);
    AppendKeepsOrder(rows, row);
    AppendKeepsCompared(rows, row, LatestId(rows, locale));
  }

  lemma {:induction false} AppendKeepsNumbers(rows: seq<Row>, row: Row)
    requires UniqueIds(rows) && UniqueVersions(rows) && Consecutive(rows) && FreshId(rows, row.id)
    requires row.version >= 1 && (row.version > 1 ==> HasVersion(rows, row.locale, row.version - 1))
    requires forall r :: r in rows && r.locale == row.locale ==> r.version < row.version
    ensures UniqueIds(rows + [row]) && UniqueVersions(rows + [row]) && Consecutive(rows + [row])
  {
    var after := rows + [row];
    assert UniqueIds(after) by {
      forall i, j | 0 <= i < j < |after|
        ensures after[i].id != after[j].id
      {
        assert after[i] in rows;
      }
    }
    AppendKeepsVersions(rows, row);
    forall r | r in after && r.version > 1
      ensures HasVersion(after, r.locale, r.version - 1)
    {
      assert HasVersion(rows, r.locale, r.version - 1);
      var q :| q in rows && q.locale == r.locale && q.version == r.version - 1;
      assert q in after;
    }
  }

  lemma {:induction false} AppendKeepsVersions(rows: seq<Row>, row: Row)
    requires UniqueVersions(rows) && forall r :: r in rows && r.locale == row.locale ==> r.version < row.version
    ensures UniqueVersions(rows + [row])
  {
  }

  lemma {:induction false} AppendKeepsOrder(rows: seq<Row>, row: Row)
    requires LabelsIncrease(rows) && LabelsNatural(rows) && row.major >= 0 && row.minor >= 0
    requires forall r :: r in rows && r.locale == row.locale ==> r.version < row.version && LabelLess(r, row)
    ensures LabelsIncrease(rows + [row]) && LabelsNatural(rows + [row])
  {
  }

  lemma {:induction false} AppendKeepsCompared(
    rows: seq<Row>, row: Row, latest: Option<VersionId>)
    requires ComparedWithPrevious(rows)
    requires forall r :: r in rows && r.locale == row.locale ==>
                           r.version < row.version && (r.version + 1 == row.version ==> latest == Some(r.id))
    requires row.version == 1 ==> latest == None
    requires row.compared.Some? ==> row.compared.value == latest
    ensures ComparedWithPrevious(rows + [row])
  {
  }

  /** What publication does to one row: nothing but a higher label, and only to the latest. */
  lemma {:induction false} PromotedShape(rows: seq<Row>, r: Row)
    requires Numbered(rows) && r in rows
    ensures var p := PromotedRow(rows, r);
            && p.id == r.id && p.locale == r.locale && p.version == r.version && p.compared == r.compared && p.restored == r.restored
            && p.major >= r.major && p.minor >= 0
            && (p != r ==> forall q :: q in rows && q.locale == r.locale ==> q.version <= r.version && q.major < p.major)
            && ((forall q :: q in rows && q.locale == r.locale ==> q.version <= r.version) ==> p.minor == 0)
  {
    PromotedCases(rows, r);
    var latest := LatestRow(rows, r);
  }

  lemma {:induction false} PromotedCases(rows: seq<Row>, r: Row)
    requires UniqueIds(rows) && r in rows
    ensures LocaleRows(rows, r.locale) != []
    ensures var group, p := LocaleRows(rows, r.locale), PromotedRow(rows, r);
            && (r == Latest(group) && r.minor != 0 ==> p == r.(major := MaxMajor(group) + 1, minor := 0))
            && (r != Latest(group) || r.minor == 0 ==> p == r)
            && (forall q :: q in rows && q.locale == r.locale ==> q.version <= Latest(group).version && q.major <= MaxMajor(group))
  {
    LocaleMembers(rows, r.locale);
    var group := LocaleRows(rows, r.locale);
    LatestIsMax(group);
    MaxMajorIsMax(group);
    SameIdSameRow(rows, r, Latest(group));
  }

  lemma SameIdSameRow(rows: seq<Row>, r: Row, q: Row)
    requires UniqueIds(rows) && r in rows && q in rows
    ensures r.id == q.id ==> r == q
  {
    var i :| 0 <= i < |rows| && rows[i] == r;
    var j :| 0 <= j < |rows| && rows[j] == q;
  }

  lemma {:induction false} PromotedMembers(rows: seq<Row>)
    ensures forall p :: p in Promoted(rows) <==> exists r :: r in rows && p == PromotedRow(rows, r)
  {
    var after := Promoted(rows);
    forall p | p in after
      ensures exists r :: r in rows && p == PromotedRow(rows, r)
    {
      var i :| 0 <= i < |after| && after[i] == p;
      assert rows[i] in rows;
    }
    forall r | r in rows
      ensures PromotedRow(rows, r) in after
    {
      var i :| 0 <= i < |rows| && rows[i] == r;
      assert after[i] == PromotedRow(rows, r);
    }
  }

  /** The row a promoted row comes from. */
  lemma {:induction false} PromotedFrom(rows: seq<Row>, p: Row) returns (r: Row)
    requires Numbered(rows) && p in Promoted(rows)
    ensures r in rows && p == PromotedRow(rows, r)
    ensures p.id == r.id && p.locale == r.locale && p.version == r.version && p.compared == r.compared && p.restored == r.restored
    ensures p.major >= r.major && p.major >= 0 && p.minor >= 0
  {
    PromotedMembers(rows);
    r :| r in rows && p == PromotedRow(rows, r);
    PromotedShape(rows, r);
  }

  lemma {:induction false} PromotedKeepsOrder(rows: seq<Row>, p: Row, q: Row)
    requires Numbered(rows) && p in Promoted(rows) && q in Promoted(rows) && p.locale == q.locale
    ensures p.version < q.version ==> LabelLess(p, q)
    ensures p.version == q.version ==> p == q
    ensures p.version == q.version + 1 && p.compared.Some? ==> p.compared.value == Some(q.id)
  {
    var r := PromotedFrom(rows, p);
    var u := PromotedFrom(rows, q);
    if p.version < q.version {
      assert LabelLess(r, u);
      PromotedShape(rows, r);
      PromotedShape(rows, u);
    }
  }

  lemma {:induction false} PromotedKeepsNumbers(rows: seq<Row>, p: Row)
    requires Numbered(rows) && p in Promoted(rows)
    ensures p.version >= 1 && (p.version > 1 ==> HasVersion(Promoted(rows), p.locale, p.version - 1))
    ensures p.version == 1 && p.compared.Some? ==> p.compared.value.None?
    ensures p.major >= 0 && p.minor >= 0
  {
    var r := PromotedFrom(rows, p);
    if p.version > 1 {
      assert HasVersion(rows, r.locale, r.version - 1);
      var q :| q in rows && q.locale == r.locale && q.version == r.version - 1;
      PromotedMembers(rows);
      PromotedShape(rows, q);
      assert PromotedRow(rows, q) in Promoted(rows);
    }
  }

  lemma {:induction false} PromotedKeepsIds(rows: seq<Row>)
    requires Numbered(rows)
    ensures UniqueIds(Promoted(rows))
  {
    var after := Promoted(rows);
    forall i, j | 0 <= i < j < |after|
      ensures after[i].id != after[j].id
    {
      assert rows[i] in rows && rows[j] in rows;
      PromotedShape(rows, rows[i]);
      PromotedShape(rows, rows[j]);
    }
  }

  lemma {:induction false} PromotedKeepsConsecutive(rows: seq<Row>)
    requires Numbered(rows)
    ensures Consecutive(Promoted(rows)) && LabelsNatural(Promoted(rows))
  {
    var after := Promoted(rows);
    forall p | p in after
      ensures p.version >= 1 && (p.version > 1 ==> HasVersion(after, p.locale, p.version - 1))
      ensures p.major >= 0 && p.minor >= 0
    {
      PromotedKeepsNumbers(rows, p);
    }
  }

  lemma {:induction false} PromotedKeepsLabels(rows: seq<Row>)
    requires Numbered(rows)
    ensures LabelsIncrease(Promoted(rows)) && UniqueVersions(Promoted(rows))
  {
    assert LabelsIncrease(Promoted(rows)) by {
      forall p, q | p in Promoted(rows) && q in Promoted(rows) && p.locale == q.locale && p.version < q.version
        ensures LabelLess(p, q)
      {
        PromotedKeepsOrder(rows, p, q);
      }
    }
    PromotedKeepsVersions(rows);
  }

  lemma {:induction false} PromotedKeepsVersions(rows: seq<Row>)
    requires Numbered(rows)
    ensures UniqueVersions(Promoted(rows))
  {
    forall p, q | p in Promoted(rows) && q in Promoted(rows) && p.locale == q.locale && p.version == q.version
      ensures p == q
    {
      PromotedKeepsOrder(rows, p, q);
    }
  }

  lemma {:induction false} PublishKeeps(rows: seq<Row>)
    requires Numbered(rows)
    ensures Numbered(Promoted(rows))
  {
    PromotedKeepsIds(rows);
    PromotedKeepsConsecutive(rows);
    PromotedKeepsLabels(rows);
    PromotedKeepsCompared(rows);
  }

  lemma {:induction false} PromotedKeepsCompared(rows: seq<Row>)
    requires Numbered(rows)
    ensures ComparedWithPrevious(Promoted(rows))
  {
    var after := Promoted(rows);
    forall p | p in after
      ensures p.version == 1 && p.compared.Some? ==> p.compared.value.None?
    {
      PromotedKeepsNumbers(rows, p);
    }
    forall p, q | p in after && q in after && p.locale == q.locale
      ensures p.version == q.version + 1 && p.compared.Some? ==> p.compared.value == Some(q.id)
    {
      PromotedKeepsOrder(rows, p, q);
    }
  }

  // ----- How labels step, and what is restored -----

  ghost predicate FirstLabel(r: Row) {
    (r.major == 0 && r.minor == 1) || (r.major == 1 && r.minor == 0)
  }

  /** The next minor, or the next major if it was published. */
  ghost predicate NextLabel(r: Row, q: Row) {
    (q.major == r.major && q.minor == r.minor + 1) || (q.major == r.major + 1 && q.minor == 0)
  }

  ghost predicate LabelsStep(rows: seq<Row>) {
    && (forall r :: r in rows && r.version == 1 ==> FirstLabel(r))
    && (forall r, q :: r in rows && q in rows && r.locale == q.locale && q.version == r.version + 1 ==> NextLabel(r, q))
  }

  /** A restored version is older than the one the restoration followed. */
  ghost predicate RestoredAreOlder(rows: seq<Row>) {
    forall r :: r in rows && r.restored.Some? ==> 1 <= r.restored.value <= r.version - 2 && r.compared.None?
  }

  ghost predicate Stepped(rows: seq<Row>) {
    LabelsStep(rows) && RestoredAreOlder(rows)
  }

  /** A version may be restored exactly when its language has a newer one. */
  lemma {:induction false} RestorableExactly(rows: seq<Row>, source: Row)
    requires source in rows
    ensures !IsCurrent(rows, source) <==> exists r :: r in rows && r.locale == source.locale && r.version > source.version
  {
    LocaleMembers(rows, source.locale);
    var group := LocaleRows(rows, source.locale);
    LatestIsMax(group);
    assert source in group;
  }

  lemma {:induction false} RestoresOlder(rows: seq<Row>, source: Row)
    requires Numbered(rows) && source in rows && !IsCurrent(rows, source)
    ensures LocaleRows(rows, source.locale) != []
    ensures 1 <= source.version < Latest(LocaleRows(rows, source.locale)).version
  {
    var latest := LatestRow(rows, source);
  }

  lemma {:induction false} NextRowSteps(
    rows: seq<Row>, locale: Locale, id: VersionId, compared: Option<Option<VersionId>>, restored: Option<int>, r: Row)
    requires UniqueVersions(rows) && r in rows && r.locale == locale
    ensures var row := NextRow(rows, locale, id, compared, restored);
            r.version < row.version && (row.version == r.version + 1 ==> NextLabel(r, row))
  {
    var latest := LatestRow(rows, r);
  }

  lemma {:induction false} AppendSteps(
    rows: seq<Row>, locale: Locale, id: VersionId, compared: Option<Option<VersionId>>, restored: Option<int>)
    requires Numbered(rows) && Stepped(rows)
    requires restored.Some? ==>
               && compared.None? && LocaleRows(rows, locale) != []
               && 1 <= restored.value < Latest(LocaleRows(rows, locale)).version
    ensures Stepped(rows + [NextRow(rows, locale, id, compared, restored)])
  {
    var row := NextRow(rows, locale, id, compared, restored);
    FirstIsFirst(rows, locale, id, compared, restored);
    forall r | r in rows && r.locale == locale
      ensures r.version < row.version && (row.version == r.version + 1 ==> NextLabel(r, row))
    {
      NextRowSteps(rows, locale, id, compared, restored, r);
    }
    AppendKeepsLabels(rows, row);
    assert row.restored == restored && row.compared == compared;
    AppendKeepsRestored(rows, row);
  }

  lemma {:induction false} AppendKeepsLabels(rows: seq<Row>, row: Row)
    requires LabelsStep(rows) && (row.version == 1 ==> FirstLabel(row))
    requires forall r :: r in rows && r.locale == row.locale ==> r.version < row.version && (row.version == r.version + 1 ==> NextLabel(r, row))
    ensures LabelsStep(rows + [row])
  {
  }

  lemma {:induction false} AppendKeepsRestored(rows: seq<Row>, row: Row)
    requires RestoredAreOlder(rows)
    requires row.restored.Some? ==> 1 <= row.restored.value <= row.version - 2 && row.compared.None?
    ensures RestoredAreOlder(rows + [row])
  {
  }

  lemma {:induction false} FirstIsFirst(
    rows: seq<Row>, locale: Locale, id: VersionId, compared: Option<Option<VersionId>>, restored: Option<int>)
    requires Consecutive(rows)
    ensures var row := NextRow(rows, locale, id, compared, restored); row.version == 1 ==> FirstLabel(row)
  {
    var group := LocaleRows(rows, locale);
    if group != [] {
      LocaleMembers(rows, locale);
      LatestIsMax(group);
    }
  }

  /** A row that publication changes is the latest of its language, and becomes the next major. */
  lemma {:induction false} PromotedLabel(rows: seq<Row>, r: Row)
    requires Numbered(rows) && r in rows && PromotedRow(rows, r) != r
    ensures PromotedRow(rows, r).major == r.major + 1 && PromotedRow(rows, r).minor == 0 && r.minor != 0
    ensures forall q :: q in rows && q.locale == r.locale ==> q.version <= r.version
  {
    LocaleMembers(rows, r.locale);
    var group := LocaleRows(rows, r.locale);
    LatestIsMax(group);
    MaxMajorIsMax(group);
    SameIdSameRow(rows, r, Latest(group));
    var top :| top in group && top.major == MaxMajor(group);
    assert top == r || LabelLess(top, r) by {
      assert UniqueVersions(rows) && LabelsIncrease(rows);
    }
    assert r in group;
  }

  lemma {:induction false} PublishSteps(rows: seq<Row>)
    requires Numbered(rows) && Stepped(rows)
    ensures Stepped(Promoted(rows))
  {
    var after := Promoted(rows);
    forall p | p in after
      ensures p.version == 1 ==> FirstLabel(p)
      ensures p.restored.Some? ==> 1 <= p.restored.value <= p.version - 2 && p.compared.None?
    {
      var r := PromotedFrom(rows, p);
      if p != r {
        PromotedLabel(rows, r);
      }
    }
    forall p, q | p in after && q in after && p.locale == q.locale && q.version == p.version + 1
      ensures NextLabel(p, q)
    {
      PromotedStep(rows, p, q);
    }
  }

  lemma {:induction false} PromotedStep(rows: seq<Row>, p: Row, q: Row)
    requires Numbered(rows) && LabelsStep(rows) && p in Promoted(rows) && q in Promoted(rows)
    requires p.locale == q.locale && q.version == p.version + 1
    ensures NextLabel(p, q)
  {
    var r := PromotedFrom(rows, p);
    var u := PromotedFrom(rows, q);
    assert NextLabel(r, u);
    if p != r {
      PromotedLabel(rows, r);
    } else if q != u {
      PromotedLabel(rows, u);
    }
  }

  /** Publication leaves the latest version of each language at minor 0, above every other major. */
  lemma {:induction false} PublicationMakesMajor(rows: seq<Row>, latest: Row, other: Row)
    requires Numbered(rows)
    requires latest in Promoted(rows) && other in Promoted(rows) && other.locale == latest.locale
    requires forall q :: q in Promoted(rows) && q.locale == latest.locale ==> q.version <= latest.version
    ensures latest.minor == 0
    ensures other != latest ==> other.major < latest.major
  {
    PublishKeeps(rows);
    PromotedMembers(rows);
    var r := PromotedFrom(rows, latest);
    PromotedShape(rows, r);
    forall q | q in rows && q.locale == r.locale
      ensures q.version <= r.version
    {
      PromotedShape(rows, q);
      assert PromotedRow(rows, q) in Promoted(rows);
    }
    if other != latest {
      assert other.version < latest.version;
      assert LabelLess(other, latest);
    }
  }

  /**
   In every run of uploads, restorations and publications, each version of a language follows the
   previous one by a minor step or as the next major, and only older versions are restored; they are
   numbered consecutively, their labels strictly increase, and each upload was compared with the
   version just before it.
   */
  lemma {:induction false} EveryRunIsNumbered(states: seq<State>, k: nat)
    requires IsRun(states) && k < |states|
    ensures Numbered(states[k].rows) && Stepped(states[k].rows)
  {
    if k > 0 {
      EveryRunIsNumbered(states, k - 1);
      StepNumbers(states[k - 1], states[k]);
    }
  }

  lemma {:induction false} StepNumbers(s: State, t: State)
    requires Numbered(s.rows) && Stepped(s.rows) && Step(s, t)
    ensures Numbered(t.rows) && Stepped(t.rows)
  {
    if CommitUpload(s, t) {
      var i, id: VersionId :| 0 <= i < |s.uploads| && FreshId(s.rows, id)
        && var (locale, previous) := s.uploads[i];
           && LatestId(s.rows, locale) == previous
           && t == s.(rows := s.rows + [NextRow(s.rows, locale, id, Some(previous), None)]);
      AppendKeeps(s.rows, s.uploads[i].0, id, Some(s.uploads[i].1), None);
      AppendSteps(s.rows, s.uploads[i].0, id, Some(s.uploads[i].1), None);
    } else if Restore(s, t) {
      var source: Row, id: VersionId :| source in s.rows && FreshId(s.rows, id)
        && !IsCurrent(s.rows, source)
        && t == s.(rows := s.rows + [NextRow(s.rows, source.locale, id, None, Some(source.version))]);
      RestoresOlder(s.rows, source);
      AppendKeeps(s.rows, source.locale, id, None, Some(source.version));
      AppendSteps(s.rows, source.locale, id, None, Some(source.version));
    } else if Publish(s, t) {
      PublishKeeps(s.rows);
      PublishSteps(s.rows);
    }
  }
}
