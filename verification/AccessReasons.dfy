/**
 Why access is granted: the answers of `authorization.service.ts` told from the stored columns,
 the validity dates of rules and grants, ownership, and the nearest category with a rule.
 */
module AccessReasons {
  import opened Wrappers
  import opened Sorting
  import opened CategoryAcl
  import opened Authorization

  /** The owner group may do everything in its space but download. */
  ghost predicate OwnerReason(space: Space, groups: seq<Group>, p: Permission) {
    exists g :: g in groups && space.owner == Some(Owner(g, true)) && p in {ShowMenu, Read, Search, Preview, Upload, Edit, Publish, Archive}
  }

  /** A rule of an active group, on this category or on the root, from its first instant to before its last. */
  ghost predicate RuleReason(space: Space, groups: seq<Group>, p: Permission, c: Id, now: int) {
    exists r :: r in space.rules && r.group in groups && p in r.permissions && RuleCovers(r, c, now)
  }

  /** The rule counts for the category now, whatever it permits and whoever it is for. */
  ghost predicate RuleCovers(r: AccessRule, c: Id, now: int) {
    && r.groupActive && r.categoryId == c
    && (forall start :: r.validFrom == Some(start) ==> start <= now)
    && (forall end :: r.validUntil == Some(end) ==> now < end)
  }

  /** A temporary grant lets its active group see the space until it expires. */
  ghost predicate GrantReason(space: Space, groups: seq<Group>, p: Permission, now: int) {
    p in {ShowMenu, Read, Search, Preview} && exists g, end :: Grant(g, true, end) in space.grants && g in groups && now < end
  }

  ghost predicate RootReason(space: Space, groups: seq<Group>, p: Permission, now: int) {
    OwnerReason(space, groups, p) || RuleReason(space, groups, p, "", now) || GrantReason(space, groups, p, now)
  }

  lemma {:induction false} CoversIsInForce(r: AccessRule, c: Id, now: int)
    ensures RuleCovers(r, c, now) <==> InForce(r, now) && r.categoryId == c
  {
    if r.validFrom.Some? {
      assert r.validFrom == Some(r.validFrom.value);
    }
    if r.validUntil.Some? {
      assert r.validUntil == Some(r.validUntil.value);
    }
  }

  lemma {:induction false} OwnerReasonExactly(space: Space, groups: seq<Group>, p: Permission)
    ensures OwnerReason(space, groups, p) <==> Owns(space, groups, p)
  {
  }

  lemma {:induction false} RootRuleExactly(space: Space, groups: seq<Group>, p: Permission, c: Id, now: int)
    ensures RuleReason(space, groups, p, c, now) <==>
            exists r :: r in space.rules && InForce(r, now) && r.categoryId == c && r.group in groups && p in r.permissions
  {
    forall r
      ensures RuleCovers(r, c, now) <==> InForce(r, now) && r.categoryId == c
    {
      CoversIsInForce(r, c, now);
    }
  }

  lemma {:induction false} GrantReasonExactly(space: Space, groups: seq<Group>, p: Permission, now: int)
    ensures GrantReason(space, groups, p, now) <==> Temporary(p) && HasGrant(space, groups, now)
  {
    if HasGrant(space, groups, now) {
      var g :| g in space.grants && g.groupActive && g.group in groups && g.validUntil > now;
      assert g == Grant(g.group, true, g.validUntil);
    }
  }

  lemma {:induction false} RootReasonExactly(space: Space, groups: seq<Group>, p: Permission, now: int)
    ensures RootReason(space, groups, p, now) <==> AclRoot(space, groups, p, now)
  {
    OwnerReasonExactly(space, groups, p);
    RootRuleExactly(space, groups, p, "", now);
    GrantReasonExactly(space, groups, p, now);
  }

  /** The one space of this id that is not deleted. */
  ghost predicate IsLive(spaces: seq<Space>, spaceId: Id, space: Space) {
    space in spaces && space.id == spaceId && !space.deleted
  }

  lemma {:induction false} MayOnLive(
    spaces: seq<Space>, groups: seq<Group>, space: Space, p: Permission, categoryId: Option<Id>, now: int)
    requires UniqueIds(spaces) && IsLive(spaces, space.id, space)
    ensures May(spaces, groups, space.id, p, categoryId, now) <==> groups != [] && Allowed(space, groups, p, categoryId, now)
  {
    if groups != [] {
      MayIsAllowed(spaces, groups, space.id, p, categoryId, now);
      forall other | other in spaces && other.id == space.id
        ensures other == space
      {
        OnlyThatSpace(spaces, space.id);
        assert [other] == OnlySpace(spaces, space.id) == [space];
      }
    }
  }

  /** Without a category, and on the root: exactly the owner, a rule on the root, or a temporary grant. */
  lemma {:induction false} RootAnswerExactly(spaces: seq<Space>, groups: seq<Group>, space: Space, p: Permission, now: int)
    requires UniqueIds(spaces) && IsLive(spaces, space.id, space)
    ensures May(spaces, groups, space.id, p, None, now) <==> RootReason(space, groups, p, now)
    ensures May(spaces, groups, space.id, p, Some(""), now) <==> RootReason(space, groups, p, now)
  {
    MayOnLive(spaces, groups, space, p, None, now);
    MayOnLive(spaces, groups, space, p, Some(""), now);
    RootReasonExactly(space, groups, p, now);
  }

  /** A missing or deleted space grants nothing. */
  lemma {:induction false} NoSpaceNoAccess(
    spaces: seq<Space>, groups: seq<Group>, spaceId: Id, p: Permission, categoryId: Option<Id>, now: int)
    requires UniqueIds(spaces) && forall space :: !IsLive(spaces, spaceId, space)
    ensures !May(spaces, groups, spaceId, p, categoryId, now)
  {
    if groups != [] {
      MayIsAllowed(spaces, groups, spaceId, p, categoryId, now);
      assert forall space :: space in spaces && space.id == spaceId && !space.deleted ==> IsLive(spaces, spaceId, space);
    }
  }

  // ----- Categories -----

  /** The category is listed, and its first k ancestors-or-self have no rule that counts now. */
  ghost predicate Unruled(space: Space, c: Id, k: nat, now: int) {
    forall i :: 0 <= i < k ==>
                  var a := Ancestor(Nodes(space.categories), c, i);
                  a != "" && a in Nodes(space.categories) && forall r :: r in space.rules ==> !RuleCovers(r, a, now)
  }

  lemma {:induction false} RuledExactly(space: Space, groups: seq<Group>, p: Permission, a: Id, now: int)
    requires a != ""
    ensures a in OverridesFor(space, groups, p, now) <==> exists r :: r in space.rules && RuleCovers(r, a, now)
    ensures a in OverridesFor(space, groups, p, now) ==>
              (OverridesFor(space, groups, p, now)[a] <==> RuleReason(space, groups, p, a, now))
  {
    OverridesMeaning(space, groups, p, now);
    RootRuleExactly(space, groups, p, a, now);
    forall r
      ensures RuleCovers(r, a, now) <==> InForce(r, now) && r.categoryId == a
    {
      CoversIsInForce(r, a, now);
    }
  }

  ghost predicate IsListed(space: Space, c: Id) {
    exists category :: category in space.categories && category.id == c
  }

  lemma {:induction false} CategoryAnswer(spaces: seq<Space>, groups: seq<Group>, space: Space, p: Permission, c: Id, now: int)
    requires UniqueIds(spaces) && IsLive(spaces, space.id, space) && c != ""
    ensures May(spaces, groups, space.id, p, Some(c), now) <==>
            groups != [] && IsListed(space, c) && (OwnerReason(space, groups, p) || CategoryWalk(space, groups, p, now, c, {}))
  {
    MayOnLive(spaces, groups, space, p, Some(c), now);
    ScopeCategories(space, groups, p, c, now);
    OwnerReasonExactly(space, groups, p);
  }

  /**
   On a listed category whose k-th ancestor-or-self is the nearest one with a rule that counts now,
   the rules of that one decide, and nothing above them; the owner need not ask.
   */
  lemma {:induction false} NearestRuleDecides(
    spaces: seq<Space>, groups: seq<Group>, space: Space, p: Permission, c: Id, k: nat, now: int)
    requires UniqueIds(spaces) && IsLive(spaces, space.id, space) && c != "" && IsListed(space, c)
    requires Unruled(space, c, k, now)
    requires var a := Ancestor(Nodes(space.categories), c, k);
             a != "" && a in Nodes(space.categories) && exists r :: r in space.rules && RuleCovers(r, a, now)
    ensures May(spaces, groups, space.id, p, Some(c), now) <==>
            OwnerReason(space, groups, p) || RuleReason(space, groups, p, Ancestor(Nodes(space.categories), c, k), now)
  {
    var nodes, overrides := Nodes(space.categories), OverridesFor(space, groups, p, now);
    var a := Ancestor(nodes, c, k);
    CategoryAnswer(spaces, groups, space, p, c, now);
    RuledExactly(space, groups, p, a, now);
    forall i | 0 <= i < k
      ensures Ancestor(nodes, c, i) !in overrides
    {
      RuledExactly(space, groups, p, Ancestor(nodes, c, i), now);
    }
    WalkIsNearestRule(nodes, overrides, AclRoot(space, groups, p, now), c);
    DecidedOnlyAt(nodes, overrides, AclRoot(space, groups, p, now), c, k);
  }

  /** The first ancestor with an override is the only one that can decide. */
  lemma {:induction false} DecidedOnlyAt(nodes: map<Id, Id>, overrides: map<Id, bool>, inherited: bool, c: Id, k: nat)
    requires forall i :: 0 <= i <= k ==> Ancestor(nodes, c, i) != "" && Ancestor(nodes, c, i) in nodes
    requires forall i :: 0 <= i < k ==> Ancestor(nodes, c, i) !in overrides
    requires Ancestor(nodes, c, k) in overrides || nodes[Ancestor(nodes, c, k)] == ""
    ensures (exists m: nat :: DecidedAt(nodes, overrides, inherited, c, m)) <==>
            if Ancestor(nodes, c, k) in overrides then overrides[Ancestor(nodes, c, k)] else inherited
  {
    assert DecidedAt(nodes, overrides, inherited, c, k) <==>
           if Ancestor(nodes, c, k) in overrides then overrides[Ancestor(nodes, c, k)] else inherited;
    forall m: nat | DecidedAt(nodes, overrides, inherited, c, m)
      ensures m == k
    {
      if m < k {
        assert Ancestor(nodes, c, m + 1) == nodes[Ancestor(nodes, c, m)];
      }
      if m > k {
        assert Ancestor(nodes, c, k + 1) == nodes[Ancestor(nodes, c, k)];
      }
    }
  }

  /** On a listed category without any rule up to its root, the answer is that of the space's root. */
  lemma {:induction false} NoRuleInherits(
    spaces: seq<Space>, groups: seq<Group>, space: Space, p: Permission, c: Id, k: nat, now: int)
    requires UniqueIds(spaces) && IsLive(spaces, space.id, space) && c != "" && IsListed(space, c)
    requires Unruled(space, c, k + 1, now) && Ancestor(Nodes(space.categories), c, k + 1) == ""
    ensures May(spaces, groups, space.id, p, Some(c), now) <==> RootReason(space, groups, p, now)
  {
    var nodes, overrides := Nodes(space.categories), OverridesFor(space, groups, p, now);
    CategoryAnswer(spaces, groups, space, p, c, now);
    RootReasonExactly(space, groups, p, now);
    forall i | 0 <= i <= k
      ensures Ancestor(nodes, c, i) !in overrides
    {
      RuledExactly(space, groups, p, Ancestor(nodes, c, i), now);
    }
    assert nodes[Ancestor(nodes, c, k)] == Ancestor(nodes, c, k + 1);
    WalkIsNearestRule(nodes, overrides, AclRoot(space, groups, p, now), c);
    DecidedOnlyAt(nodes, overrides, AclRoot(space, groups, p, now), c, k);
  }

  // ----- Nothing in force -----

  /** No rule and no grant of these groups is valid now, and none of them owns the space. */
  ghost predicate NothingValid(space: Space, groups: seq<Group>, now: int) {
    && (forall r :: r in space.rules && r.group in groups ==> !RuleCovers(r, r.categoryId, now))
    && (forall g, end :: Grant(g, true, end) in space.grants && g in groups ==> end <= now)
    && (forall g :: g in groups ==> space.owner != Some(Owner(g, true)))
  }

  lemma {:induction false} NothingValidIsFiltered(space: Space, groups: seq<Group>, now: int)
    requires NothingValid(space, groups, now)
    ensures !Prefilter(space, groups, now)
  {
    forall r | r in space.rules && r.group in groups
      ensures !InForce(r, now)
    {
      CoversIsInForce(r, r.categoryId, now);
    }
    forall g | g in space.grants && g.groupActive && g.group in groups
      ensures g.validUntil <= now
    {
      assert g == Grant(g.group, true, g.validUntil);
    }
  }

  /** Then no permission is granted, on the space or on any category. */
  lemma {:induction false} NothingValidNoAccess(
    spaces: seq<Space>, groups: seq<Group>, space: Space, p: Permission, categoryId: Option<Id>, now: int)
    requires UniqueIds(spaces) && IsLive(spaces, space.id, space) && NothingValid(space, groups, now)
    ensures !May(spaces, groups, space.id, p, categoryId, now)
  {
    NothingValidIsFiltered(space, groups, now);
    PrefilterLosesNothing(space, groups, p, now);
    MayOnLive(spaces, groups, space, p, categoryId, now);
  }

  // ----- The list of spaces -----

  lemma {:induction false} ListedScope(spaces: seq<Space>, groups: seq<Group>, p: Permission, now: int, scope: Scope)
    ensures scope in PermittedScopes(spaces, groups, p, now) <==>
            exists space :: space in spaces && !space.deleted && scope == ScopeOf(space, groups, p, now) && Visible(scope)
  {
    if spaces != [] {
      var front, last := spaces[..|spaces| - 1], spaces[|spaces| - 1];
      assert spaces == front + [last];
      ListedScope(front, groups, p, now, scope);
    }
  }

  function SpaceIds(spaces: seq<Space>): (ids: seq<Id>)
    ensures |ids| == |spaces| && forall i :: 0 <= i < |spaces| ==> ids[i] == spaces[i].id
  {
    seq(|spaces|, i requires 0 <= i < |spaces| => spaces[i].id)
  }

  function ScopeIds(scopes: seq<Scope>): (ids: seq<Id>)
    ensures |ids| == |scopes| && forall i :: 0 <= i < |scopes| ==> ids[i] == scopes[i].id
  {
    seq(|scopes|, i requires 0 <= i < |scopes| => scopes[i].id)
  }

  /** The listed spaces come in the order they were read in. */
  lemma {:induction false} ScopesInOrder(spaces: seq<Space>, groups: seq<Group>, p: Permission, now: int)
    ensures InOrder(ScopeIds(PermittedScopes(spaces, groups, p, now)), SpaceIds(spaces))
  {
    if spaces == [] {
      EmptyInOrder<Id>([]);
      assert ScopeIds([]) == [] && SpaceIds([]) == [];
    } else {
      var front, last := spaces[..|spaces| - 1], spaces[|spaces| - 1];
      var scope := ScopeOf(last, groups, p, now);
      ScopesInOrder(front, groups, p, now);
      OneMoreScope(PermittedScopes(front, groups, p, now), front, scope, last, !last.deleted && Visible(scope));
      assert front + [last] == spaces;
    }
  }

  lemma {:induction false} OneMoreScope(scopes: seq<Scope>, spaces: seq<Space>, scope: Scope, space: Space, kept: bool)
    requires InOrder(ScopeIds(scopes), SpaceIds(spaces)) && scope.id == space.id
    ensures InOrder(ScopeIds(scopes + if kept then [scope] else []), SpaceIds(spaces + [space]))
  {
    OneInOrder(space.id, kept);
    InOrderConcat(ScopeIds(scopes), SpaceIds(spaces), if kept then [space.id] else [], [space.id]);
    assert SpaceIds(spaces + [space]) == SpaceIds(spaces) + [space.id];
    assert ScopeIds(scopes + if kept then [scope] else []) == ScopeIds(scopes) + if kept then [space.id] else [];
  }

  /** A space is listed exactly when something in it, its root or some category, may be accessed. */
  lemma {:induction false} SpaceListedExactly(spaces: seq<Space>, groups: seq<Group>, space: Space, p: Permission, now: int)
    requires UniqueIds(spaces) && IsLive(spaces, space.id, space) && groups != []
    requires forall category :: category in space.categories ==> category.id != ""
    ensures (exists scope :: scope in PermittedScopes(spaces, groups, p, now) && scope.id == space.id) <==>
            exists c :: May(spaces, groups, space.id, p, Some(c), now)
  {
    var scope := ScopeOf(space, groups, p, now);
    ListedScope(spaces, groups, p, now, scope);
    forall other | other in PermittedScopes(spaces, groups, p, now) && other.id == space.id
      ensures other == scope && Visible(scope)
    {
      ListedScope(spaces, groups, p, now, other);
      var its :| its in spaces && !its.deleted && other == ScopeOf(its, groups, p, now) && Visible(other);
      OnlyThatSpace(spaces, space.id);
      assert [its] == OnlySpace(spaces, space.id) == [space];
    }
    MayOnLive(spaces, groups, space, p, Some(""), now);
    if Visible(scope) && !scope.aclRoot {
      var c := scope.aclCategories.value[0];
      assert c in scope.aclCategories.value;
      ScopeCategories(space, groups, p, c, now);
      MayOnLive(spaces, groups, space, p, Some(c), now);
    }
    if c :| May(spaces, groups, space.id, p, Some(c), now) {
      MayOnLive(spaces, groups, space, p, Some(c), now);
      assert c != "" ==> c in scope.aclCategories.value;
    }
  }
}
