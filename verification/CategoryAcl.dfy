/**
 Category permissions (`category-permissions.ts`): rules on a category replace what its parent,
 and in the end the space, grants. Identifiers are strings; the empty string stands for a null
 or absent reference, which the program treats alike.
 */
module CategoryAcl {
  import opened Wrappers
  import opened Sorting

  type Id = string

  datatype Category = Category(id: Id, parentId: Id)

  /** A rule as `resolveCategories` receives it: on a category, or on the space when the id is empty. */
  datatype Rule = Rule(categoryId: Id, allowed: bool)

  datatype Scope = Scope(id: Id, aclRoot: bool, aclCategories: Option<seq<Id>>)

  // ----- The nearest rule -----

  /** The k-th ancestor of a category; the empty string past the root or a missing parent. */
  function Ancestor(nodes: map<Id, Id>, c: Id, k: nat): Id {
    if k == 0 then c
    else
      var a := Ancestor(nodes, c, k - 1);
      if a in nodes then nodes[a] else ""
  }

  /** The k-th ancestor-or-self is the nearest with a rule, which grants; or it is a root without rule. */
  ghost predicate DecidedAt(nodes: map<Id, Id>, overrides: map<Id, bool>, inherited: bool, c: Id, k: nat) {
    && (forall i :: 0 <= i <= k ==> Ancestor(nodes, c, i) != "" && Ancestor(nodes, c, i) in nodes)
    && (forall i :: 0 <= i < k ==> Ancestor(nodes, c, i) !in overrides)
    && var last := Ancestor(nodes, c, k);
       if last in overrides then overrides[last] else nodes[last] == "" && inherited
  }

  /** The walk over parents, stopping at a repeated or missing category. */
  function Walk(nodes: map<Id, Id>, overrides: map<Id, bool>, inherited: bool, current: Id, visited: set<Id>): bool
    decreases nodes.Keys - visited
  {
    if current == "" then inherited
    else if current in visited || current !in nodes then false
    else if current in overrides then overrides[current]
    else Walk(nodes, overrides, inherited, nodes[current], visited + {current})
  }

  lemma {:induction false} AncestorStep(nodes: map<Id, Id>, c: Id, k: nat)
    requires c in nodes
    ensures Ancestor(nodes, nodes[c], k) == Ancestor(nodes, c, k + 1)
  {
    if k > 0 {
      AncestorStep(nodes, c, k - 1);
    }
  }

  lemma {:induction false} AncestorCycle(nodes: map<Id, Id>, c: Id, i: nat, j: nat, k: nat)
    requires Ancestor(nodes, c, i) == Ancestor(nodes, c, j)
    ensures Ancestor(nodes, c, i + k) == Ancestor(nodes, c, j + k)
  {
    if k > 0 {
      AncestorCycle(nodes, c, i, j, k - 1);
      assert i + k - 1 == i + (k - 1) && j + k - 1 == j + (k - 1);
    }
  }

  /** A walk that decides meets no category twice. */
  lemma {:induction false} DecidedNoRepeat(
    nodes: map<Id, Id>, overrides: map<Id, bool>, inherited: bool, c: Id, k: nat, i: nat, j: nat)
    requires DecidedAt(nodes, overrides, inherited, c, k) && i < j <= k
    ensures Ancestor(nodes, c, i) != Ancestor(nodes, c, j)
  {
    if Ancestor(nodes, c, i) == Ancestor(nodes, c, j) {
      AncestorCycle(nodes, c, i, j, k - j);
      assert Ancestor(nodes, c, i + (k - j)) == Ancestor(nodes, c, k);
      assert Ancestor(nodes, c, i + (k - j) + 1) == nodes[Ancestor(nodes, c, i + (k - j))];
      assert false;
    }
  }

  ghost predicate Passed(nodes: map<Id, Id>, c: Id, m: nat, v: Id) {
    exists i :: 0 <= i < m && Ancestor(nodes, c, i) == v
  }

  /** From the m-th ancestor on, with only earlier ones visited. */
  lemma {:induction false} DecidedWalks(
    nodes: map<Id, Id>, overrides: map<Id, bool>, inherited: bool, c: Id, k: nat, m: nat, visited: set<Id>)
    requires DecidedAt(nodes, overrides, inherited, c, k) && m <= k
    requires forall v :: v in visited ==> Passed(nodes, c, m, v)
    ensures Walk(nodes, overrides, inherited, Ancestor(nodes, c, m), visited)
    decreases k - m
  {
    var current := Ancestor(nodes, c, m);
    forall i | 0 <= i < m
      ensures Ancestor(nodes, c, i) != current
    {
      DecidedNoRepeat(nodes, overrides, inherited, c, k, i, m);
    }
    if m < k {
      forall v | v in visited + {current}
        ensures Passed(nodes, c, m + 1, v)
      {
        if v in visited {
          var i :| 0 <= i < m && Ancestor(nodes, c, i) == v;
        } else {
          assert Ancestor(nodes, c, m) == v;
        }
      }
      DecidedWalks(nodes, overrides, inherited, c, k, m + 1, visited + {current});
    } else if current !in overrides {
      assert nodes[current] == "";
    }
  }

  lemma {:induction false} WalkDecides(
    nodes: map<Id, Id>, overrides: map<Id, bool>, inherited: bool, c: Id, visited: set<Id>)
    returns (k: nat)
    requires c != "" && Walk(nodes, overrides, inherited, c, visited)
    ensures DecidedAt(nodes, overrides, inherited, c, k)
    decreases nodes.Keys - visited
  {
    if c in overrides || nodes[c] == "" {
      k := 0;
    } else {
      var n := WalkDecides(nodes, overrides, inherited, nodes[c], visited + {c});
      k := n + 1;
      forall i | 0 <= i <= k
        ensures Ancestor(nodes, c, i) != "" && Ancestor(nodes, c, i) in nodes
        ensures i < k ==> Ancestor(nodes, c, i) !in overrides
        ensures i > 0 ==> Ancestor(nodes, c, i) == Ancestor(nodes, nodes[c], i - 1)
      {
        if i > 0 {
          AncestorStep(nodes, c, i - 1);
        }
      }
    }
  }

  /**
   On any parent graph, cyclic or broken ones included, the walk grants a category exactly when
   its nearest ancestor-or-self with a rule grants it, or none has one and the root inherits.
   */
  lemma {:induction false} WalkIsNearestRule(
    nodes: map<Id, Id>, overrides: map<Id, bool>, inherited: bool, c: Id)
    requires c != ""
    ensures Walk(nodes, overrides, inherited, c, {}) <==> exists k :: DecidedAt(nodes, overrides, inherited, c, k)
  {
    if k :| DecidedAt(nodes, overrides, inherited, c, k) {
      DecidedWalks(nodes, overrides, inherited, c, k, 0, {});
    }
    if Walk(nodes, overrides, inherited, c, {}) {
      var k := WalkDecides(nodes, overrides, inherited, c, {});
    }
  }

  // ----- resolveCategories -----

  /** `new Map(categories.map(...))`: a later entry replaces an earlier one with the same id. */
  function Nodes(categories: seq<Category>): map<Id, Id> {
    if categories == [] then map[]
    else
      var last := categories[|categories| - 1];
      Nodes(categories[..|categories| - 1])[last.id := last.parentId]
  }

  /** No later entry has the same id. */
  ghost predicate IsLastEntry(categories: seq<Category>, k: nat)
    requires k < |categories|
  {
    forall j :: k < j < |categories| ==> categories[j].id != categories[k].id
  }

  /** Each listed category has the parent of its last entry, and no other category has one. */
  lemma {:induction false} NodesAre(categories: seq<Category>)
    ensures forall c :: c in Nodes(categories) <==> exists category :: category in categories && category.id == c
    ensures forall k: nat :: k < |categories| && IsLastEntry(categories, k) ==>
                               categories[k].id in Nodes(categories) && Nodes(categories)[categories[k].id] == categories[k].parentId
  {
    if categories != [] {
      var front, last := categories[..|categories| - 1], categories[|categories| - 1];
      assert categories == front + [last];
      NodesAre(front);
      forall k: nat | k < |categories| && IsLastEntry(categories, k)
        ensures categories[k].id in Nodes(categories) && Nodes(categories)[categories[k].id] == categories[k].parentId
      {
        LastEntryOfFront(front, last, k);
      }
    }
  }

  lemma {:induction false} LastEntryOfFront(front: seq<Category>, last: Category, k: nat)
    requires k <= |front| && IsLastEntry(front + [last], k)
    ensures k < |front| ==> IsLastEntry(front, k) && front[k].id != last.id
  {
    var categories := front + [last];
    if k < |front| {
      assert categories[|front|].id != categories[k].id;
      assert forall j :: k < j < |front| ==> front[j] == categories[j];
    }
  }

  ghost predicate HasRule(rules: seq<Rule>, c: Id) {
    c != "" && exists i :: 0 <= i < |rules| && rules[i].categoryId == c
  }

  ghost predicate Grants(rules: seq<Rule>, c: Id) {
    c != "" && exists i :: 0 <= i < |rules| && rules[i].categoryId == c && rules[i].allowed
  }

  /** One entry per category with a rule; several rules on one category add up. */
  ghost predicate IsOverrides(overrides: map<Id, bool>, rules: seq<Rule>) {
    && (forall c :: c in overrides <==> HasRule(rules, c))
    && (forall c :: c in overrides ==> (overrides[c] <==> Grants(rules, c)))
  }

  function Overrides(rules: seq<Rule>): (overrides: map<Id, bool>)
    ensures IsOverrides(overrides, rules)
  {
    if rules == [] then map[]
    else
      var front, last := rules[..|rules| - 1], rules[|rules| - 1];
      var before := Overrides(front);
      OverridesSnoc(front, last);
      assert rules == front + [last];
      if last.categoryId == "" then before
      else before[last.categoryId := (last.categoryId in before && before[last.categoryId]) || last.allowed]
  }

  lemma OverridesSnoc(front: seq<Rule>, last: Rule)
    ensures forall c :: HasRule(front + [last], c) <==> HasRule(front, c) || (c != "" && c == last.categoryId)
    ensures forall c :: Grants(front + [last], c) <==> Grants(front, c) || (c != "" && c == last.categoryId && last.allowed)
  {
    var rules := front + [last];
    assert rules[|front|] == last;
    forall c | HasRule(front, c)
      ensures HasRule(rules, c)
    {
      var i :| 0 <= i < |front| && front[i].categoryId == c;
      assert rules[i] == front[i];
    }
    forall c | Grants(front, c)
      ensures Grants(rules, c)
    {
      var i :| 0 <= i < |front| && front[i].categoryId == c && front[i].allowed;
      assert rules[i] == front[i];
    }
  }

  /** The ids, in order, of the categories the walk grants. */
  function Resolve(categories: seq<Category>, nodes: map<Id, Id>, overrides: map<Id, bool>, inherited: bool): seq<Id> {
    if categories == [] then []
    else
      var front, last := categories[..|categories| - 1], categories[|categories| - 1].id;
      Resolve(front, nodes, overrides, inherited) + (if Walk(nodes, overrides, inherited, last, {}) then [last] else [])
  }

  function CategoryIds(categories: seq<Category>): seq<Id> {
    if categories == [] then [] else [categories[0].id] + CategoryIds(categories[1..])
  }

  lemma {:induction false} IdsSnoc(front: seq<Category>, last: Category)
    ensures CategoryIds(front + [last]) == CategoryIds(front) + [last.id]
  {
    if front != [] {
      assert (front + [last])[1..] == front[1..] + [last];
      IdsSnoc(front[1..], last);
    } else {
      assert front + [last] == [last];
    }
  }

  /** The granted categories come in the order they are listed in. */
  lemma {:induction false} ResolvedInOrder(
    categories: seq<Category>, nodes: map<Id, Id>, overrides: map<Id, bool>, inherited: bool)
    ensures InOrder(Resolve(categories, nodes, overrides, inherited), CategoryIds(categories))
  {
    if categories == [] {
      EmptyInOrder<Id>([]);
    } else {
      var front, last := categories[..|categories| - 1], categories[|categories| - 1];
      assert categories == front + [last];
      ResolvedInOrder(front, nodes, overrides, inherited);
      IdsSnoc(front, last);
      var granted := if Walk(nodes, overrides, inherited, last.id, {}) then [last.id] else [];
      OneInOrder(last.id, Walk(nodes, overrides, inherited, last.id, {}));
      InOrderConcat(Resolve(front, nodes, overrides, inherited), CategoryIds(front), granted, [last.id]);
    }
  }

  lemma {:induction false} ResolveMembers(
    categories: seq<Category>, nodes: map<Id, Id>, overrides: map<Id, bool>, inherited: bool)
    ensures forall c :: c in Resolve(categories, nodes, overrides, inherited) <==>
                        (exists category :: category in categories && category.id == c) && Walk(nodes, overrides, inherited, c, {})
  {
    if categories != [] {
      var front, last := categories[..|categories| - 1], categories[|categories| - 1];
      assert categories == front + [last];
      ResolveMembers(front, nodes, overrides, inherited);
    }
  }

  /** The inner `while` loop over parents. */
  method WalkUp(
    nodes: map<Id, Id>, overrides: map<Id, bool>, inherited: bool, start: Id)
    returns (granted: bool)
    ensures granted == Walk(nodes, overrides, inherited, start, {})
  {
    var visited: set<Id> := {};
    var current := start;
    while current != ""
      invariant Walk(nodes, overrides, inherited, current, visited) == Walk(nodes, overrides, inherited, start, {})
      decreases nodes.Keys - visited
    {
      if current in visited || current !in nodes {
        return false;
      }
      visited := visited + {current};
      if current in overrides {
        return overrides[current];
      }
      current := nodes[current];
    }
    return inherited;
  }

  method ResolveCategories(
    categories: seq<Category>, rules: seq<Rule>, inherited: bool)
    returns (granted: seq<Id>)
    ensures granted == Resolve(categories, Nodes(categories), Overrides(rules), inherited)
    ensures forall category :: category in categories && category.id != "" ==>
                                 (category.id in granted <==>
                                  exists k :: DecidedAt(Nodes(categories), Overrides(rules), inherited, category.id, k))
  {
    var nodes := Nodes(categories);
    var overrides: map<Id, bool> := map[];
    for i := 0 to |rules|
      invariant overrides == Overrides(rules[..i])
    {
      assert rules[..i + 1][..i] == rules[..i];
      var rule := rules[i];
      if rule.categoryId != "" {
        var before := rule.categoryId in overrides && overrides[rule.categoryId];
        overrides := overrides[rule.categoryId := before || rule.allowed];
      }
    }
    assert rules[..|rules|] == rules;
    granted := [];
    for i := 0 to |categories|
      invariant granted == Resolve(categories[..i], nodes, overrides, inherited)
    {
      assert categories[..i + 1][..i] == categories[..i];
      var allowed := WalkUp(nodes, overrides, inherited, categories[i].id);
      if allowed {
        granted := granted + [categories[i].id];
      }
    }
    assert categories[..|categories|] == categories;
    ResolveMembers(categories, nodes, overrides, inherited);
    forall category | category in categories && category.id != ""
      ensures category.id in granted <==> exists k :: DecidedAt(nodes, overrides, inherited, category.id, k)
    {
      WalkIsNearestRule(nodes, overrides, inherited, category.id);
    }
  }

  // ----- One scope: the check on a category and the query filter -----

  function CategoryAllowed(scope: Option<Scope>, categoryId: Id): bool {
    scope.Some?
    && (scope.value.aclCategories.None?
        || if categoryId != "" then categoryId in scope.value.aclCategories.value else scope.value.aclRoot)
  }

  /** A document row: its category column is null or an id. */
  datatype Document = Document(spaceId: Id, categoryId: Option<Id>)

  /** One `OR` branch of the filter: the space, and the categories unless the scope is unrestricted. */
  datatype Branch = Branch(spaceId: Id, categories: Option<(bool, seq<Id>)>)

  function CategoryDocumentWhere(scopes: seq<Scope>): seq<Branch> {
    if scopes == [] then []
    else
      var scope := scopes[0];
      [Branch(scope.id, if scope.aclCategories.None? then None else Some((scope.aclRoot, scope.aclCategories.value)))]
      + CategoryDocumentWhere(scopes[1..])
  }

  /** What the database selects with one branch; `in` never matches a null column. */
  predicate BranchSelects(branch: Branch, document: Document) {
    && document.spaceId == branch.spaceId
    && (branch.categories.None?
        || (branch.categories.value.0 && document.categoryId.None?)
        || (document.categoryId.Some? && document.categoryId.value in branch.categories.value.1))
  }

  predicate Selects(branches: seq<Branch>, document: Document) {
    exists branch :: branch in branches && BranchSelects(branch, document)
  }

  /** The reference a document carries: null and the empty string read alike in the program. */
  function Reference(document: Document): Id {
    if document.categoryId.Some? then document.categoryId.value else ""
  }

  /**
   The filter selects exactly the documents some scope allows. It would treat a stored empty
   string differently from null, so the two agree exactly on documents that hold none.
   */
  lemma {:induction false} WhereSelectsAllowed(scopes: seq<Scope>, document: Document)
    ensures document.categoryId != Some("") ==>
              (Selects(CategoryDocumentWhere(scopes), document)
               <==> exists scope :: scope in scopes && scope.id == document.spaceId && CategoryAllowed(Some(scope), Reference(document)))
    ensures document.categoryId == Some("") ==>
              (Selects(CategoryDocumentWhere(scopes), document)
               <==> exists scope :: scope in scopes && scope.id == document.spaceId
                                    && (scope.aclCategories.None? || "" in scope.aclCategories.value))
  {
    if scopes != [] {
      var rest := CategoryDocumentWhere(scopes[1..]);
      WhereSelectsAllowed(scopes[1..], document);
      var branch := CategoryDocumentWhere(scopes)[0];
      assert CategoryDocumentWhere(scopes) == [branch] + rest;
      assert Selects(CategoryDocumentWhere(scopes), document) <==> BranchSelects(branch, document) || Selects(rest, document);
      assert scopes == [scopes[0]] + scopes[1..];
    }
  }
}
