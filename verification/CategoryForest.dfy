/**
 Creating, moving and deleting categories (`controllers.ts`): the categories that are not
 deleted stay a forest, each tree inside one space, which is what lets the unguarded walk of
 the cycle check terminate.
 */
module CategoryForest {
  import opened CategoryAcl

  /** c reaches a root in n parent steps. */
  ghost predicate Rooted(parents: map<Id, Id>, c: Id, n: nat)
    decreases n
  {
    c in parents && if n == 0 then parents[c] == "" else parents[c] != "" && Rooted(parents, parents[c], n - 1)
  }

  ghost predicate Forest(parents: map<Id, Id>) {
    "" !in parents && forall c :: c in parents ==> exists n: nat :: Rooted(parents, c, n)
  }

  /** id is c or one of its ancestors. */
  ghost predicate Below(parents: map<Id, Id>, c: Id, id: Id) {
    exists k: nat :: Ancestor(parents, c, k) == id
  }

  lemma {:induction false} BelowUnfolds(parents: map<Id, Id>, c: Id, id: Id)
    requires c in parents && id != "" && "" !in parents
    ensures Below(parents, c, id) <==> c == id || (parents[c] != "" && Below(parents, parents[c], id))
  {
    if k: nat :| Ancestor(parents, c, k) == id {
      if k > 0 {
        AncestorStep(parents, c, k - 1);
        AncestorOfNothing(parents, k - 1);
      }
    }
    if c == id {
      assert Ancestor(parents, c, 0) == id;
    }
    if k: nat :| Ancestor(parents, parents[c], k) == id {
      AncestorStep(parents, c, k);
      AncestorOfNothing(parents, k);
      assert Ancestor(parents, c, k + 1) == id;
    }
  }

  lemma {:induction false} AncestorOfNothing(parents: map<Id, Id>, k: nat)
    requires "" !in parents
    ensures Ancestor(parents, "", k) == ""
  {
    if k > 0 {
      AncestorOfNothing(parents, k - 1);
    }
  }

  // ----- Moving a category -----

  /** Above a point that does not pass through id, nothing changes when id is moved. */
  lemma {:induction false} RootedElsewhere(
    parents: map<Id, Id>, id: Id, p: Id, c: Id, n: nat)
    requires "" !in parents && id != "" && Rooted(parents, c, n) && !Below(parents, c, id)
    ensures Rooted(parents[id := p], c, n)
    decreases n
  {
    BelowUnfolds(parents, c, id);
    if n > 0 {
      RootedElsewhere(parents, id, p, parents[c], n - 1);
    }
  }

  lemma {:induction false} RootedAfterMove(
    parents: map<Id, Id>, id: Id, p: Id, c: Id, n: nat)
    returns (m: nat)
    requires Forest(parents) && id != "" && Rooted(parents, c, n)
    requires p == "" || (p in parents && !Below(parents, p, id))
    ensures Rooted(parents[id := p], c, m)
    decreases n
  {
    if c == id {
      if p == "" {
        m := 0;
      } else {
        var k: nat :| Rooted(parents, p, k);
        RootedElsewhere(parents, id, p, p, k);
        m := k + 1;
      }
    } else if n == 0 {
      m := 0;
    } else {
      var k := RootedAfterMove(parents, id, p, parents[c], n - 1);
      m := k + 1;
    }
  }

  /** On the cycle a bad move would close, no category reaches a root. */
  lemma {:induction false} NoRootOnCycle(parents: map<Id, Id>, id: Id, p: Id, c: Id, n: nat)
    requires Forest(parents) && id != "" && p != "" && Below(parents, p, id)
    requires c == id || Below(parents, c, id)
    ensures !Rooted(parents[id := p], c, n)
    decreases n
  {
    var after := parents[id := p];
    if c == id {
      if n > 0 {
        NoRootOnCycle(parents, id, p, p, n - 1);
      }
    } else if c in parents {
      BelowUnfolds(parents, c, id);
      if n > 0 {
        NoRootOnCycle(parents, id, p, parents[c], n - 1);
      }
    }
  }

  /**
   Putting id under p, with id old or new, keeps the forest exactly when p is not id or below it.
   The handler checks this before the write, on the categories it has read.
   */
  lemma {:induction false} MoveKeepsForestExactly(parents: map<Id, Id>, id: Id, p: Id)
    requires Forest(parents) && id != "" && (p == "" || p in parents)
    ensures Forest(parents[id := p]) <==> p == "" || !Below(parents, p, id)
  {
    var after := parents[id := p];
    if p == "" || !Below(parents, p, id) {
      forall c | c in after
        ensures exists n: nat :: Rooted(after, c, n)
      {
        if c in parents {
          var n: nat :| Rooted(parents, c, n);
          var m := RootedAfterMove(parents, id, p, c, n);
        } else if p == "" {
          assert Rooted(after, id, 0);
        } else {
          var k: nat :| Rooted(parents, p, k);
          RootedElsewhere(parents, id, p, p, k);
          assert Rooted(after, id, k + 1);
        }
      }
    } else {
      forall n: nat
        ensures !Rooted(after, id, n)
      {
        NoRootOnCycle(parents, id, p, id, n);
      }
      assert id in after;
    }
  }

  // ----- Deleting a category -----

  /** The children of the deleted category go to its own parent. */
  function Spliced(parents: map<Id, Id>, id: Id): map<Id, Id>
    requires id in parents
  {
    map c | c in parents && c != id :: if parents[c] == id then parents[id] else parents[c]
  }

  lemma {:induction false} RootedAfterDelete(
    parents: map<Id, Id>, id: Id, c: Id, n: nat)
    returns (m: nat)
    requires Forest(parents) && id in parents && c != id && Rooted(parents, c, n)
    ensures m <= n && Rooted(Spliced(parents, id), c, m)
    decreases n
  {
    if n == 0 {
      m := 0;
    } else if parents[c] != id {
      var k := RootedAfterDelete(parents, id, parents[c], n - 1);
      m := k + 1;
    } else if n == 1 {
      m := 0;
    } else {
      RootedNotSelf(parents, id, n - 1);
      var k := RootedAfterDelete(parents, id, parents[id], n - 2);
      m := k + 1;
    }
  }

  lemma {:induction false} RootedNotSelf(parents: map<Id, Id>, c: Id, n: nat)
    requires "" !in parents && Rooted(parents, c, n)
    ensures parents[c] != c
  {
    if parents[c] == c && n > 0 {
      RootedNotSelf(parents, c, n - 1);
      assert false;
    }
  }

  lemma {:induction false} DeleteKeepsForest(parents: map<Id, Id>, id: Id)
    requires Forest(parents) && id in parents
    ensures Forest(Spliced(parents, id))
  {
    forall c | c in Spliced(parents, id)
      ensures exists m: nat :: Rooted(Spliced(parents, id), c, m)
    {
      var n: nat :| Rooted(parents, c, n);
      var m := RootedAfterDelete(parents, id, c, n);
    }
  }

  ghost predicate Decided(nodes: map<Id, Id>, overrides: map<Id, bool>, inherited: bool, c: Id) {
    exists k: nat :: DecidedAt(nodes, overrides, inherited, c, k)
  }

  lemma {:induction false} DecidedUnfolds(
    nodes: map<Id, Id>, overrides: map<Id, bool>, inherited: bool, c: Id)
    requires c in nodes && c != ""
    ensures Decided(nodes, overrides, inherited, c) <==>
            if c in overrides then overrides[c]
            else if nodes[c] == "" then inherited
            else Decided(nodes, overrides, inherited, nodes[c])
  {
    if k: nat :| DecidedAt(nodes, overrides, inherited, c, k) {
      assert Ancestor(nodes, c, 0) == c;
      if k > 0 {
        forall i | 0 <= i <= k - 1
          ensures Ancestor(nodes, nodes[c], i) == Ancestor(nodes, c, i + 1)
        {
          AncestorStep(nodes, c, i);
        }
        assert Ancestor(nodes, c, 1) == nodes[c];
        assert DecidedAt(nodes, overrides, inherited, nodes[c], k - 1);
      }
    }
    if c in overrides || nodes[c] == "" {
      assert DecidedAt(nodes, overrides, inherited, c, 0) <==> if c in overrides then overrides[c] else inherited;
    } else if k: nat :| DecidedAt(nodes, overrides, inherited, nodes[c], k) {
      forall i | 0 <= i <= k + 1
        ensures i > 0 ==> Ancestor(nodes, c, i) == Ancestor(nodes, nodes[c], i - 1)
        ensures Ancestor(nodes, c, i) != "" && Ancestor(nodes, c, i) in nodes
        ensures i < k + 1 ==> Ancestor(nodes, c, i) !in overrides
      {
        if i > 0 {
          AncestorStep(nodes, c, i - 1);
        }
      }
      assert DecidedAt(nodes, overrides, inherited, c, k + 1);
    }
  }

  /** Deleting a category that has no rule changes what no other category is granted. */
  lemma {:induction false} DeleteKeepsGrants(
    parents: map<Id, Id>, overrides: map<Id, bool>, inherited: bool, id: Id, c: Id, n: nat)
    requires Forest(parents) && id in parents && id !in overrides && c != id && Rooted(parents, c, n)
    ensures Walk(parents, overrides, inherited, c, {}) == Walk(Spliced(parents, id), overrides, inherited, c, {})
    ensures Decided(parents, overrides, inherited, c) <==> Decided(Spliced(parents, id), overrides, inherited, c)
    decreases n
  {
    var after := Spliced(parents, id);
    DecidedUnfolds(parents, overrides, inherited, c);
    DecidedUnfolds(after, overrides, inherited, c);
    if c !in overrides && n > 0 {
      if parents[c] != id {
        DeleteKeepsGrants(parents, overrides, inherited, id, parents[c], n - 1);
      } else {
        DecidedUnfolds(parents, overrides, inherited, id);
        if n > 1 {
          RootedNotSelf(parents, id, n - 1);
          DeleteKeepsGrants(parents, overrides, inherited, id, parents[id], n - 2);
        }
      }
    }
    WalkIsNearestRule(parents, overrides, inherited, c);
    WalkIsNearestRule(after, overrides, inherited, c);
  }

  // ----- Two moves checked on the same reading -----

  /** Moving id changes nothing for what does not pass through it. */
  lemma {:induction false} BelowElsewhere(
    parents: map<Id, Id>, id: Id, p: Id, c: Id, other: Id, n: nat)
    requires "" !in parents && id != "" && other != "" && Rooted(parents, c, n) && !Below(parents, c, id)
    ensures Below(parents[id := p], c, other) <==> Below(parents, c, other)
    decreases n
  {
    BelowUnfolds(parents, c, id);
    BelowUnfolds(parents, c, other);
    BelowUnfolds(parents[id := p], c, other);
    if n > 0 {
      BelowElsewhere(parents, id, p, parents[c], other, n - 1);
    }
  }

  /** What passes through the moved id, and did not pass through `other` before, does so through the new parent. */
  lemma {:induction false} BelowThroughMove(
    parents: map<Id, Id>, id: Id, p: Id, c: Id, other: Id, n: nat)
    requires "" !in parents && id != "" && other != "" && other != id && Rooted(parents, c, n)
    requires Below(parents, c, id) && !Below(parents, c, other)
    ensures Below(parents[id := p], c, other) <==> p != "" && Below(parents[id := p], p, other)
    decreases n
  {
    BelowUnfolds(parents, c, id);
    BelowUnfolds(parents, c, other);
    BelowUnfolds(parents[id := p], c, other);
    if c != id && n > 0 {
      BelowThroughMove(parents, id, p, parents[c], other, n - 1);
    }
  }

  /** The check of a move on the categories it has read. */
  ghost predicate MayMove(read: map<Id, Id>, id: Id, p: Id) {
    id in read && (p == "" || (p in read && !Below(read, p, id)))
  }

  /**
   Two moves that each pass the check on the same reading close a cycle exactly when each puts
   its category under the other one.
   */
  lemma {:induction false} TwoMovesKeepForestExactly(
    read: map<Id, Id>, a: Id, p: Id, b: Id, q: Id)
    requires Forest(read) && a != b && MayMove(read, a, p) && MayMove(read, b, q)
    ensures Forest(read[a := p][b := q]) <==> !(p != "" && q != "" && Below(read, q, a) && Below(read, p, b))
  {
    var moved := read[a := p];
    MoveKeepsForestExactly(read, a, p);
    MoveKeepsForestExactly(moved, b, q);
    if q != "" {
      var n: nat :| Rooted(read, q, n);
      if Below(read, q, a) {
        BelowThroughMove(read, a, p, q, b, n);
        if p != "" {
          var m: nat :| Rooted(read, p, m);
          BelowElsewhere(read, a, p, p, b, m);
        }
      } else {
        BelowElsewhere(read, a, p, q, b, n);
      }
    }
  }

  /** Such a pair: each move keeps the forest alone, and both together close a cycle. */
  lemma {:induction false} InterleavedMovesMakeCycle()
    ensures var read := map["a" := "", "b" := ""];
            && Forest(read)
            && MayMove(read, "a", "b") && MayMove(read, "b", "a")
            && Forest(read["a" := "b"]) && Forest(read["b" := "a"])
            && !Forest(read["a" := "b"]["b" := "a"])
  {
    var read := map["a" := "", "b" := ""];
    assert Rooted(read, "a", 0) && Rooted(read, "b", 0);
    BelowUnfolds(read, "b", "a");
    BelowUnfolds(read, "a", "b");
    MoveKeepsForestExactly(read, "a", "b");
    MoveKeepsForestExactly(read, "b", "a");
    var moved := read["a" := "b"];
    BelowUnfolds(moved, "a", "b");
    BelowUnfolds(moved, "b", "b");
    MoveKeepsForestExactly(moved, "b", "a");
  }

  // ----- The handlers -----

  datatype Row = Row(spaceId: Id, parentId: Id, deleted: bool)

  datatype Filed = Filed(categoryId: Id, spaceId: Id, deleted: bool)

  datatype Outcome = Done | NotFound | InvalidSpace | OwnParent | InvalidParent | Cycle | NotEmpty

  ghost function Parents(rows: map<Id, Row>): map<Id, Id> {
    map c | c in rows && !rows[c].deleted :: rows[c].parentId
  }

  /** The parent of a live category is a live category of the same space. */
  ghost predicate ClosedInSpaces(rows: map<Id, Row>) {
    forall c :: c in rows && !rows[c].deleted && rows[c].parentId != "" ==>
                  var p := rows[c].parentId; p in rows && !rows[p].deleted && rows[p].spaceId == rows[c].spaceId
  }

  /** A live document filed under a live category is in the category's space. */
  ghost predicate FiledInSpace(rows: map<Id, Row>, documents: map<Id, Filed>) {
    forall d, c :: d in documents && !documents[d].deleted && documents[d].categoryId == c && c in rows && !rows[c].deleted ==>
                     documents[d].spaceId == rows[c].spaceId
  }

  predicate LiveIn(rows: map<Id, Row>, c: Id, spaceId: Id) {
    c in rows && !rows[c].deleted && rows[c].spaceId == spaceId
  }

  /** Live documents filed under the category, or live subcategories. */
  predicate InUse(rows: map<Id, Row>, documents: map<Id, Filed>, id: Id) {
    || (exists d :: d in documents && documents[d].categoryId == id && !documents[d].deleted)
    || (exists c :: c in rows && rows[c].parentId == id && !rows[c].deleted)
  }

  /** The parents of the live categories of one space. */
  ghost predicate IsSpaceMap(rows: map<Id, Row>, spaceId: Id, byId: map<Id, Id>) {
    && (forall c :: c in byId <==> LiveIn(rows, c, spaceId))
    && (forall c :: c in byId ==> byId[c] == rows[c].parentId)
  }

  ghost function UpdateOutcome(rows: map<Id, Row>, spaces: set<Id>, documents: map<Id, Filed>, id: Id, spaceId: Id, parentId: Id): Outcome {
    if id !in rows || rows[id].deleted then NotFound
    else if spaceId !in spaces then InvalidSpace
    else if parentId == id then OwnParent
    else if parentId != "" && !LiveIn(rows, parentId, spaceId) then InvalidParent
    else if parentId != "" && Below(Parents(rows), parentId, id) then Cycle
    else if rows[id].spaceId != spaceId && InUse(rows, documents, id) then NotEmpty
    else Done
  }

  lemma {:induction false} NewIsNotBelow(parents: map<Id, Id>, c: Id, id: Id)
    requires Forest(parents) && c in parents && id !in parents && id != ""
    ensures !Below(parents, c, id)
  {
    var n: nat :| Rooted(parents, c, n);
    NewIsNotBelowRooted(parents, c, id, n);
  }

  lemma {:induction false} NewIsNotBelowRooted(parents: map<Id, Id>, c: Id, id: Id, n: nat)
    requires "" !in parents && Rooted(parents, c, n) && id !in parents && id != ""
    ensures !Below(parents, c, id)
    decreases n
  {
    BelowUnfolds(parents, c, id);
    if n > 0 {
      NewIsNotBelowRooted(parents, parents[c], id, n - 1);
    }
  }

  ghost predicate SameSpaces(before: map<Id, Row>, after: map<Id, Row>) {
    after.Keys == before.Keys && forall c :: c in after ==> after[c].spaceId == before[c].spaceId
  }

  /** Every document of the category loses its reference; nothing else changes. */
  ghost predicate Unfiled(before: map<Id, Filed>, after: map<Id, Filed>, id: Id) {
    && after.Keys == before.Keys
    && forall d :: d in after ==>
                     after[d] == if before[d].categoryId == id then before[d].(categoryId := "") else before[d]
  }

  /** `updateMany` on the rows whose parent is id. */
  function Reparented(rows: map<Id, Row>, id: Id, parentId: Id): map<Id, Row> {
    map c | c in rows :: if rows[c].parentId == id then rows[c].(parentId := parentId) else rows[c]
  }

  lemma {:induction false} WithoutIsSpliced(rows: map<Id, Row>, id: Id)
    requires Forest(Parents(rows)) && ClosedInSpaces(rows) && "" !in rows && id in Parents(rows)
    ensures var moved := Reparented(rows, id, rows[id].parentId);
            var after := moved[id := moved[id].(deleted := true)];
            && Parents(after) == Spliced(Parents(rows), id)
            && Forest(Parents(after)) && ClosedInSpaces(after) && SameSpaces(rows, after)
  {
    var parents := Parents(rows);
    var n: nat :| Rooted(parents, id, n);
    RootedNotSelf(parents, id, n);
    DeleteKeepsForest(parents, id);
    var moved := Reparented(rows, id, rows[id].parentId);
    var after := moved[id := moved[id].(deleted := true)];
    assert Parents(after) == Spliced(parents, id);
  }

  lemma {:induction false} MoveKeepsRows(
    rows: map<Id, Row>, documents: map<Id, Filed>, id: Id, spaceId: Id, parentId: Id)
    requires Forest(Parents(rows)) && ClosedInSpaces(rows) && "" !in rows && id in Parents(rows)
    requires parentId != "" ==> LiveIn(rows, parentId, spaceId) && !Below(Parents(rows), parentId, id)
    requires rows[id].spaceId != spaceId ==> !InUse(rows, documents, id)
    requires FiledInSpace(rows, documents)
    ensures var after := rows[id := Row(spaceId, parentId, false)];
            Forest(Parents(after)) && ClosedInSpaces(after) && "" !in after && FiledInSpace(after, documents)
  {
    var after := rows[id := Row(spaceId, parentId, false)];
    MoveKeepsForestExactly(Parents(rows), id, parentId);
    assert Parents(after) == Parents(rows)[id := parentId];
  }

  /** A category counts as empty exactly when no live document and no live category names it. */
  lemma {:induction false} EmptyExactly(rows: map<Id, Row>, documents: map<Id, Filed>, id: Id)
    ensures !InUse(rows, documents, id) <==>
            && (forall d :: d in documents && documents[d].categoryId == id ==> documents[d].deleted)
            && (forall c :: c in Parents(rows) ==> Parents(rows)[c] != id)
  {
    if c :| c in rows && rows[c].parentId == id && !rows[c].deleted {
      assert c in Parents(rows) && Parents(rows)[c] == id;
    }
    if c :| c in Parents(rows) && Parents(rows)[c] == id {
      assert c in rows && rows[c].parentId == id && !rows[c].deleted;
    }
  }

  class Categories {
    var spaces: set<Id>
    var rows: map<Id, Row>
    var documents: map<Id, Filed>

    ghost predicate Valid()
      reads this
    {
      Forest(Parents(rows)) && ClosedInSpaces(rows) && "" !in rows && FiledInSpace(rows, documents)
    }

    constructor ()
      ensures Valid() && spaces == {} && rows == map[] && documents == map[]
    {
      spaces, rows, documents := {}, map[], map[];
    }

    /** A new document under a live category of its space, or under none. */
    method File(document: Id, spaceId: Id, categoryId: Id) returns (filed: bool)
      requires Valid() && document !in documents
      modifies this`documents
      ensures Valid()
      ensures filed <==> spaceId in spaces && (categoryId == "" || LiveIn(rows, categoryId, spaceId))
      ensures documents == if filed then old(documents)[document := Filed(categoryId, spaceId, false)] else old(documents)
    {
      filed := spaceId in spaces && (categoryId == "" || LiveIn(rows, categoryId, spaceId));
      if filed {
        documents := documents[document := Filed(categoryId, spaceId, false)];
      }
    }

    method Create(id: Id, spaceId: Id, parentId: Id) returns (outcome: Outcome)
      requires Valid() && id != "" && id !in rows && forall d :: d in documents ==> documents[d].categoryId != id
      modifies this`rows
      ensures Valid()
      ensures outcome == if spaceId !in spaces then InvalidSpace
                         else if parentId != "" && !LiveIn(old(rows), parentId, spaceId) then InvalidParent
                         else Done
      ensures rows == if outcome == Done then old(rows)[id := Row(spaceId, parentId, false)] else old(rows)
    {
      if spaceId !in spaces {
        return InvalidSpace;
      }
      if parentId != "" && !LiveIn(rows, parentId, spaceId) {
        return InvalidParent;
      }
      if parentId != "" {
        NewIsNotBelow(Parents(rows), parentId, id);
      }
      MoveKeepsForestExactly(Parents(rows), id, parentId);
      rows := rows[id := Row(spaceId, parentId, false)];
      assert Parents(rows) == Parents(old(rows))[id := parentId];
      return Done;
    }

    /** The cycle check: walk up from the new parent among the live categories of the space. */
    method MeetsOnTheWayUp(byId: map<Id, Id>, id: Id, parentId: Id) returns (met: bool)
      requires Valid() && id != "" && parentId in byId
      requires exists spaceId :: IsSpaceMap(rows, spaceId, byId)
      ensures met <==> Below(Parents(rows), parentId, id)
    {
      ghost var parents := Parents(rows);
      ghost var spaceId :| IsSpaceMap(rows, spaceId, byId);
      var current := parentId;
      ghost var n: nat :| Rooted(parents, current, n);
      while current != ""
        invariant current != "" ==> current in byId && Rooted(parents, current, n)
        invariant Below(parents, parentId, id) <==> current != "" && Below(parents, current, id)
        decreases current != "", n
      {
        BelowUnfolds(parents, current, id);
        if current == id {
          return true;
        }
        current := if current in byId then byId[current] else "";
        if n > 0 {
          n := n - 1;
        }
      }
      return false;
    }

    method Update(id: Id, spaceId: Id, parentId: Id) returns (outcome: Outcome)
      requires Valid()
      modifies this`rows
      ensures Valid()
      ensures outcome == UpdateOutcome(old(rows), spaces, documents, id, spaceId, parentId)
      ensures rows == if outcome == Done then old(rows)[id := Row(spaceId, parentId, false)] else old(rows)
    {
      if id !in rows || rows[id].deleted {
        return NotFound;
      }
      if spaceId !in spaces {
        return InvalidSpace;
      }
      if parentId == id {
        return OwnParent;
      }
      if parentId != "" {
        var byId := map c | c in rows && !rows[c].deleted && rows[c].spaceId == spaceId :: rows[c].parentId;
        assert IsSpaceMap(rows, spaceId, byId);
        if parentId !in byId {
          return InvalidParent;
        }
        var met := MeetsOnTheWayUp(byId, id, parentId);
        if met {
          return Cycle;
        }
      }
      if rows[id].spaceId != spaceId && InUse(rows, documents, id) {
        return NotEmpty;
      }
      MoveKeepsRows(rows, documents, id, spaceId, parentId);
      rows := rows[id := Row(spaceId, parentId, false)];
      return Done;
    }

    method Delete(id: Id) returns (outcome: Outcome)
      requires Valid()
      modifies this`rows, this`documents
      ensures Valid()
      ensures outcome == if id in old(rows) && !old(rows)[id].deleted then Done else NotFound
      ensures outcome == Done ==> Parents(rows) == Spliced(Parents(old(rows)), id) && SameSpaces(old(rows), rows)
      ensures outcome == Done ==> Unfiled(old(documents), documents, id)
      ensures outcome == NotFound ==> rows == old(rows) && documents == old(documents)
    {
      if id !in rows || rows[id].deleted {
        return NotFound;
      }
      var parentId := rows[id].parentId;
      WithoutIsSpliced(rows, id);
      documents := map d | d in documents :: if documents[d].categoryId == id then documents[d].(categoryId := "") else documents[d];
      rows := Reparented(rows, id, parentId);
      rows := rows[id := rows[id].(deleted := true)];
      return Done;
    }
  }
}
