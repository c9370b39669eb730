/**
 Access decisions (`authorization.service.ts`) for callers holding no ISMS role group, and the
 mail audience computed from them (`notification.service.ts`). Group names are already in the
 case the database and the program compare them in.
 */
module Authorization {
  import opened Wrappers
  import opened CategoryAcl

  type Group = string

  datatype Permission = ShowMenu | Read | Search | Preview | Download | Upload | Edit | Publish | Archive

  datatype AccessRule = AccessRule(
    group: Group, groupActive: bool, categoryId: Id, permissions: set<Permission>,
    validFrom: Option<int>, validUntil: Option<int>)

  datatype Grant = Grant(group: Group, groupActive: bool, validUntil: int)

  datatype Owner = Owner(group: Group, active: bool)

  /** A space with its rules, its temporary grants and its categories that are not deleted. */
  datatype Space = Space(
    id: Id, deleted: bool, rules: seq<AccessRule>, grants: seq<Grant>, owner: Option<Owner>, categories: seq<Category>)

  predicate Temporary(p: Permission) {
    p.ShowMenu? || p.Read? || p.Search? || p.Preview?
  }

  predicate InForce(r: AccessRule, now: int) {
    && r.groupActive
    && (r.validFrom.None? || r.validFrom.value <= now)
    && (r.validUntil.None? || r.validUntil.value > now)
  }

  // ----- permittedSpacesFor -----

  /** The database condition under which a space is loaded at all. */
  predicate Prefilter(space: Space, groups: seq<Group>, now: int) {
    || (exists r :: r in space.rules && r.group in groups && InForce(r, now))
    || HasGrant(space, groups, now)
    || (space.owner.Some? && space.owner.value.active && space.owner.value.group in groups)
  }

  predicate HasGrant(space: Space, groups: seq<Group>, now: int) {
    exists g :: g in space.grants && g.groupActive && g.group in groups && g.validUntil > now
  }

  predicate Owns(space: Space, groups: seq<Group>, p: Permission) {
    p != Download && space.owner.Some? && space.owner.value.active && space.owner.value.group in groups
  }

  predicate AclRoot(space: Space, groups: seq<Group>, p: Permission, now: int) {
    || Owns(space, groups, p)
    || (exists r :: r in space.rules && InForce(r, now) && r.categoryId == "" && r.group in groups && p in r.permissions)
    || (Temporary(p) && HasGrant(space, groups, now))
  }

  /** The loaded rules: every group's rules in force, each allowing what it grants to these groups. */
  function Resolved(rules: seq<AccessRule>, groups: seq<Group>, p: Permission, now: int): seq<Rule> {
    if rules == [] then []
    else
      (if InForce(rules[0], now) then [Rule(rules[0].categoryId, rules[0].group in groups && p in rules[0].permissions)] else [])
      + Resolved(rules[1..], groups, p, now)
  }

  function ScopeOf(space: Space, groups: seq<Group>, p: Permission, now: int): Scope {
    var root := AclRoot(space, groups, p, now);
    Scope(space.id, root,
          Some(if Owns(space, groups, p) then CategoryIds(space.categories)
               else Resolve(space.categories, Nodes(space.categories), Overrides(Resolved(space.rules, groups, p, now)), root)))
  }

  predicate Visible(scope: Scope) {
    scope.aclRoot || (scope.aclCategories.Some? && scope.aclCategories.value != [])
  }

  /** The simple form: every space that is not deleted, without any prefilter. */
  function PermittedScopes(spaces: seq<Space>, groups: seq<Group>, p: Permission, now: int): seq<Scope> {
    if spaces == [] then []
    else
      var front, space := spaces[..|spaces| - 1], spaces[|spaces| - 1];
      var scope := ScopeOf(space, groups, p, now);
      PermittedScopes(front, groups, p, now) + (if !space.deleted && Visible(scope) then [scope] else [])
  }

  /** Some group's rule in force names the category. */
  ghost predicate Ruled(rules: seq<AccessRule>, c: Id, now: int) {
    c != "" && exists r :: r in rules && InForce(r, now) && r.categoryId == c
  }

  /** A rule in force of one of these groups grants the permission on the category. */
  ghost predicate Granted(rules: seq<AccessRule>, groups: seq<Group>, p: Permission, c: Id, now: int) {
    c != "" && exists r :: r in rules && InForce(r, now) && r.categoryId == c && r.group in groups && p in r.permissions
  }

  lemma {:induction false} ResolvedMembers(
    rules: seq<AccessRule>, groups: seq<Group>, p: Permission, now: int)
    ensures forall c :: HasRule(Resolved(rules, groups, p, now), c) <==> Ruled(rules, c, now)
    ensures forall c :: Grants(Resolved(rules, groups, p, now), c) <==> Granted(rules, groups, p, c, now)
  {
    if rules != [] {
      ResolvedMembers(rules[1..], groups, p, now);
      var rest := Resolved(rules[1..], groups, p, now);
      assert rules == [rules[0]] + rules[1..];
      if InForce(rules[0], now) {
        RuleCons(Rule(rules[0].categoryId, rules[0].group in groups && p in rules[0].permissions), rest);
      } else {
        assert Resolved(rules, groups, p, now) == rest;
      }
    }
  }

  lemma RuleCons(first: Rule, rest: seq<Rule>)
    ensures forall c :: HasRule([first] + rest, c) <==> HasRule(rest, c) || (c != "" && c == first.categoryId)
    ensures forall c :: Grants([first] + rest, c) <==> Grants(rest, c) || (c != "" && c == first.categoryId && first.allowed)
  {
    var rules := [first] + rest;
    assert rules[0] == first && rules[1..] == rest;
    forall c | HasRule(rest, c)
      ensures HasRule(rules, c)
    {
      var i :| 0 <= i < |rest| && rest[i].categoryId == c;
      assert rules[i + 1] == rest[i];
    }
    forall c | Grants(rest, c)
      ensures Grants(rules, c)
    {
      var i :| 0 <= i < |rest| && rest[i].categoryId == c && rest[i].allowed;
      assert rules[i + 1] == rest[i];
    }
  }

  lemma {:induction false} NothingGranted(
    nodes: map<Id, Id>, overrides: map<Id, bool>, c: Id, visited: set<Id>)
    requires forall k :: k in overrides ==> !overrides[k]
    ensures !Walk(nodes, overrides, false, c, visited)
    decreases nodes.Keys - visited
  {
    if c != "" && c !in visited && c in nodes && c !in overrides {
      NothingGranted(nodes, overrides, nodes[c], visited + {c});
    }
  }

  /** A space the prefilter drops would grant nothing, so dropping it changes no answer. */
  lemma {:induction false} PrefilterLosesNothing(
    space: Space, groups: seq<Group>, p: Permission, now: int)
    requires !Prefilter(space, groups, now)
    ensures !Visible(ScopeOf(space, groups, p, now))
  {
    var overrides := Overrides(Resolved(space.rules, groups, p, now));
    ResolvedMembers(space.rules, groups, p, now);
    ResolveMembers(space.categories, Nodes(space.categories), overrides, false);
    var ids := Resolve(space.categories, Nodes(space.categories), overrides, false);
    assert ids != [] ==> ids[0] in ids;
    forall c
      ensures c !in ids
    {
      NothingGranted(Nodes(space.categories), overrides, c, {});
    }
  }

  lemma {:induction false} OneMoreSpace(spaces: seq<Space>, j: nat)
    requires j < |spaces|
    ensures spaces[..j + 1] == spaces[..j] + [spaces[j]]
  {
  }

  lemma {:induction false} ScopesSnoc(front: seq<Space>, space: Space, groups: seq<Group>, p: Permission, now: int)
    ensures PermittedScopes(front + [space], groups, p, now)
         == PermittedScopes(front, groups, p, now)
            + if !space.deleted && Prefilter(space, groups, now) && Visible(ScopeOf(space, groups, p, now)) then
                [ScopeOf(space, groups, p, now)]
              else []
  {
    assert (front + [space])[..|front|] == front;
    if !Prefilter(space, groups, now) {
      PrefilterLosesNothing(space, groups, p, now);
    }
  }

  /** The pass over the loaded spaces for one permission. */
  method ScopesFor(
    spaces: seq<Space>, groups: seq<Group>, p: Permission, now: int)
    returns (scopes: seq<Scope>)
    ensures scopes == PermittedScopes(spaces, groups, p, now)
  {
    scopes := [];
    for j := 0 to |spaces|
      invariant scopes == PermittedScopes(spaces[..j], groups, p, now)
    {
      var space := spaces[j];
      OneMoreSpace(spaces, j);
      ScopesSnoc(spaces[..j], space, groups, p, now);
      if !space.deleted && Prefilter(space, groups, now) {
        var scope := ScopeOf(space, groups, p, now);
        if Visible(scope) {
          scopes := scopes + [scope];
        }
      }
    }
    assert spaces[..|spaces|] == spaces;
  }

  method PermittedSpacesFor(
    spaces: seq<Space>, groups: seq<Group>, permissions: seq<Permission>, now: int)
    returns (result: map<Permission, seq<Scope>>)
    ensures result.Keys == set p | p in permissions
    ensures forall p :: p in permissions ==>
                          result[p] == if groups == [] then [] else PermittedScopes(spaces, groups, p, now)
  {
    result := map p | p in permissions :: [];
    if groups == [] {
      return;
    }
    for i := 0 to |permissions|
      invariant result.Keys == set p | p in permissions
      invariant forall j :: 0 <= j < i ==> result[permissions[j]] == PermittedScopes(spaces, groups, permissions[j], now)
    {
      var scopes := ScopesFor(spaces, groups, permissions[i], now);
      result := result[permissions[i] := scopes];
    }
  }

  // ----- can -----

  function FindScope(scopes: seq<Scope>, spaceId: Id): Option<Scope> {
    if scopes == [] then None
    else if scopes[0].id == spaceId then Some(scopes[0])
    else FindScope(scopes[1..], spaceId)
  }

  /** The count query used when no category is given. */
  predicate CountsAtLeastOne(spaces: seq<Space>, groups: seq<Group>, spaceId: Id, p: Permission, now: int) {
    exists space :: space in spaces && space.id == spaceId && !space.deleted && (
      || (p != Download && space.owner.Some? && space.owner.value.active && space.owner.value.group in groups)
      || (exists r :: r in space.rules && r.categoryId == "" && r.group in groups && p in r.permissions && InForce(r, now))
      || (Temporary(p) && HasGrant(space, groups, now)))
  }

  /** `categoryId` is None when the caller passes none at all, and Some("") for the root. */
  method Can(
    spaces: seq<Space>, groups: seq<Group>, spaceId: Id, p: Permission, categoryId: Option<Id>, now: int)
    returns (allowed: bool)
    ensures allowed == May(spaces, groups, spaceId, p, categoryId, now)
  {
    if groups == [] {
      return false;
    }
    if categoryId.Some? {
      var scopes := PermittedSpacesFor(OnlySpace(spaces, spaceId), groups, [p], now);
      assert p in [p];
      allowed := CategoryAllowed(FindScope(scopes[p], spaceId), categoryId.value);
    } else {
      allowed := CountsAtLeastOne(spaces, groups, spaceId, p, now);
    }
  }

  function OnlySpace(spaces: seq<Space>, spaceId: Id): seq<Space> {
    if spaces == [] then []
    else OnlySpace(spaces[..|spaces| - 1], spaceId)
         + (if spaces[|spaces| - 1].id == spaceId then [spaces[|spaces| - 1]] else [])
  }

  /** The decision `can` takes. */
  ghost predicate May(spaces: seq<Space>, groups: seq<Group>, spaceId: Id, p: Permission, categoryId: Option<Id>, now: int) {
    groups != []
    && if categoryId.Some? then
         CategoryAllowed(FindScope(PermittedScopes(OnlySpace(spaces, spaceId), groups, p, now), spaceId), categoryId.value)
       else CountsAtLeastOne(spaces, groups, spaceId, p, now)
  }

  ghost predicate UniqueIds(spaces: seq<Space>) {
    forall i, j :: 0 <= i < j < |spaces| ==> spaces[i].id != spaces[j].id
  }

  /** The plain reading of a decision on one space. */
  ghost predicate Allowed(space: Space, groups: seq<Group>, p: Permission, categoryId: Option<Id>, now: int) {
    if categoryId.Some? then CategoryAllowed(Some(ScopeOf(space, groups, p, now)), categoryId.value)
    else AclRoot(space, groups, p, now)
  }

  lemma {:induction false} OnlyThatSpace(spaces: seq<Space>, spaceId: Id)
    requires UniqueIds(spaces)
    ensures (forall space :: space in spaces ==> space.id != spaceId) ==> OnlySpace(spaces, spaceId) == []
    ensures forall space :: space in spaces && space.id == spaceId ==> OnlySpace(spaces, spaceId) == [space]
  {
    if spaces != [] {
      var front, last := spaces[..|spaces| - 1], spaces[|spaces| - 1];
      assert spaces == front + [last];
      OnlyThatSpace(front, spaceId);
    }
  }

  lemma {:induction false} SingleScope(
    space: Space, groups: seq<Group>, p: Permission, categoryId: Id, now: int)
    ensures CategoryAllowed(FindScope(PermittedScopes([space], groups, p, now), space.id), categoryId)
       <==> !space.deleted && CategoryAllowed(Some(ScopeOf(space, groups, p, now)), categoryId)
  {
    var scope := ScopeOf(space, groups, p, now);
    assert [space][..0] == [] && PermittedScopes([], groups, p, now) == [];
    assert PermittedScopes([space], groups, p, now) == if !space.deleted && Visible(scope) then [scope] else [];
    if categoryId != "" && categoryId in scope.aclCategories.value {
      assert Visible(scope);
    }
  }

  /** Both ways of asking reduce to the same reading; without a category, to the scope's root flag. */
  lemma {:induction false} MayIsAllowed(
    spaces: seq<Space>, groups: seq<Group>, spaceId: Id, p: Permission, categoryId: Option<Id>, now: int)
    requires UniqueIds(spaces) && groups != []
    ensures May(spaces, groups, spaceId, p, categoryId, now) <==>
            exists space :: space in spaces && space.id == spaceId && !space.deleted && Allowed(space, groups, p, categoryId, now)
  {
    if categoryId.Some? {
      OnlyThatSpace(spaces, spaceId);
      if space :| space in spaces && space.id == spaceId {
        SingleScope(space, groups, p, categoryId.value, now);
        forall other | other in spaces && other.id == spaceId
          ensures other == space
        {
          assert [other] == OnlySpace(spaces, spaceId) == [space];
        }
      } else {
        assert PermittedScopes([], groups, p, now) == [];
      }
    } else {
      assert forall space :: AclRoot(space, groups, p, now) == Allowed(space, groups, p, categoryId, now);
    }
  }

  // ----- Access distributes over groups -----

  ghost function OverridesFor(space: Space, groups: seq<Group>, p: Permission, now: int): map<Id, bool> {
    Overrides(Resolved(space.rules, groups, p, now))
  }

  /** The walk of one category, for these groups. */
  ghost predicate CategoryWalk(space: Space, groups: seq<Group>, p: Permission, now: int, c: Id, visited: set<Id>) {
    Walk(Nodes(space.categories), OverridesFor(space, groups, p, now), AclRoot(space, groups, p, now), c, visited)
  }

  lemma {:induction false} RootDistributes(
    space: Space, groups: seq<Group>, p: Permission, now: int)
    ensures AclRoot(space, groups, p, now) <==> exists g :: g in groups && AclRoot(space, [g], p, now)
    ensures Owns(space, groups, p) <==> exists g :: g in groups && Owns(space, [g], p)
  {
    forall g | g in groups && AclRoot(space, [g], p, now)
      ensures AclRoot(space, groups, p, now)
    {
      if HasGrant(space, [g], now) {
        assert HasGrant(space, groups, now);
      }
    }
    if AclRoot(space, groups, p, now) {
      if Owns(space, groups, p) {
        assert AclRoot(space, [space.owner.value.group], p, now);
      } else if r :| r in space.rules && InForce(r, now) && r.categoryId == "" && r.group in groups && p in r.permissions {
        assert AclRoot(space, [r.group], p, now);
      } else {
        var t :| t in space.grants && t.groupActive && t.group in groups && t.validUntil > now;
        assert HasGrant(space, [t.group], now);
        assert AclRoot(space, [t.group], p, now);
      }
    }
    if Owns(space, groups, p) {
      assert Owns(space, [space.owner.value.group], p);
    }
  }

  lemma {:induction false} OverridesMeaning(
    space: Space, groups: seq<Group>, p: Permission, now: int)
    ensures forall c :: c in OverridesFor(space, groups, p, now) <==> Ruled(space.rules, c, now)
    ensures forall c :: c in OverridesFor(space, groups, p, now) ==>
                          (OverridesFor(space, groups, p, now)[c] <==> Granted(space.rules, groups, p, c, now))
  {
    ResolvedMembers(space.rules, groups, p, now);
  }

  lemma {:induction false} GrantedDistributes(
    rules: seq<AccessRule>, groups: seq<Group>, p: Permission, c: Id, now: int)
    ensures Granted(rules, groups, p, c, now) <==> exists g :: g in groups && Granted(rules, [g], p, c, now)
  {
    if Granted(rules, groups, p, c, now) {
      var r :| r in rules && InForce(r, now) && r.categoryId == c && r.group in groups && p in r.permissions;
      assert Granted(rules, [r.group], p, c, now);
    }
  }

  lemma {:induction false} CategoryWalkDistributes(
    space: Space, groups: seq<Group>, p: Permission, now: int, c: Id, visited: set<Id>)
    ensures CategoryWalk(space, groups, p, now, c, visited) <==>
            exists g :: g in groups && CategoryWalk(space, [g], p, now, c, visited)
    decreases Nodes(space.categories).Keys - visited
  {
    var nodes := Nodes(space.categories);
    RootDistributes(space, groups, p, now);
    OverridesMeaning(space, groups, p, now);
    forall g | g in groups
      ensures c in OverridesFor(space, [g], p, now) <==> c in OverridesFor(space, groups, p, now)
      ensures c in OverridesFor(space, [g], p, now) ==> (OverridesFor(space, [g], p, now)[c] <==> Granted(space.rules, [g], p, c, now))
    {
      OverridesMeaning(space, [g], p, now);
    }
    GrantedDistributes(space.rules, groups, p, c, now);
    if c != "" && c !in visited && c in nodes && c !in OverridesFor(space, groups, p, now) {
      CategoryWalkDistributes(space, groups, p, now, nodes[c], visited + {c});
      forall g | g in groups
        ensures CategoryWalk(space, [g], p, now, c, visited) == CategoryWalk(space, [g], p, now, nodes[c], visited + {c})
      {
      }
    }
  }

  lemma {:induction false} CategoryIdsMembers(categories: seq<Category>)
    ensures forall c :: c in CategoryIds(categories) <==> exists category :: category in categories && category.id == c
  {
    if categories != [] {
      CategoryIdsMembers(categories[1..]);
      assert categories == [categories[0]] + categories[1..];
    }
  }

  /** What a scope's category list says, whichever way it was computed. */
  lemma {:induction false} ScopeCategories(
    space: Space, groups: seq<Group>, p: Permission, c: Id, now: int)
    ensures c in ScopeOf(space, groups, p, now).aclCategories.value <==>
            (exists category :: category in space.categories && category.id == c)
            && (Owns(space, groups, p) || CategoryWalk(space, groups, p, now, c, {}))
  {
    CategoryIdsMembers(space.categories);
    ResolveMembers(space.categories, Nodes(space.categories),
                   Overrides(Resolved(space.rules, groups, p, now)), AclRoot(space, groups, p, now));
  }

  /** On one space, a set of groups may do exactly what some single group of it may do. */
  lemma {:induction false} AllowedDistributes(
    space: Space, groups: seq<Group>, p: Permission, categoryId: Option<Id>, now: int)
    ensures Allowed(space, groups, p, categoryId, now) <==> exists g :: g in groups && Allowed(space, [g], p, categoryId, now)
  {
    RootDistributes(space, groups, p, now);
    if categoryId.Some? && categoryId.value != "" {
      var c := categoryId.value;
      CategoryWalkDistributes(space, groups, p, now, c, {});
      ScopeCategories(space, groups, p, c, now);
      forall g | g in groups
        ensures Allowed(space, [g], p, categoryId, now) <==>
                (exists category :: category in space.categories && category.id == c)
                && (Owns(space, [g], p) || CategoryWalk(space, [g], p, now, c, {}))
      {
        ScopeCategories(space, [g], p, c, now);
      }
    } else if categoryId.Some? {
      assert forall gs :: Allowed(space, gs, p, categoryId, now) <==> AclRoot(space, gs, p, now);
    }
  }

  /** Access distributes over groups: G may act exactly when one group of G alone may. */
  lemma {:induction false} AccessDistributes(
    spaces: seq<Space>, groups: seq<Group>, spaceId: Id, p: Permission, categoryId: Option<Id>, now: int)
    requires UniqueIds(spaces)
    ensures May(spaces, groups, spaceId, p, categoryId, now) <==>
            exists g :: g in groups && May(spaces, [g], spaceId, p, categoryId, now)
  {
    if groups != [] {
      MayIsAllowed(spaces, groups, spaceId, p, categoryId, now);
      forall g | g in groups
        ensures May(spaces, [g], spaceId, p, categoryId, now) <==>
                exists space :: space in spaces && space.id == spaceId && !space.deleted && Allowed(space, [g], p, categoryId, now)
      {
        MayIsAllowed(spaces, [g], spaceId, p, categoryId, now);
      }
      forall space | space in spaces
        ensures Allowed(space, groups, p, categoryId, now) <==> exists g :: g in groups && Allowed(space, [g], p, categoryId, now)
      {
        AllowedDistributes(space, groups, p, categoryId, now);
      }
    }
  }

  /** More groups never lose a right. */
  lemma {:induction false} AccessIsMonotone(
    spaces: seq<Space>, groups: seq<Group>, more: seq<Group>, spaceId: Id, p: Permission,
    categoryId: Option<Id>, now: int)
    requires UniqueIds(spaces) && forall g :: g in groups ==> g in more
    requires May(spaces, groups, spaceId, p, categoryId, now)
    ensures May(spaces, more, spaceId, p, categoryId, now)
  {
    AccessDistributes(spaces, groups, spaceId, p, categoryId, now);
    AccessDistributes(spaces, more, spaceId, p, categoryId, now);
  }

  // ----- The mail audience of a space -----

  /** Active groups with any rule, ownership or grant in the space, valid or not. */
  predicate Related(spaces: seq<Space>, spaceId: Id, g: Group) {
    exists space :: space in spaces && space.id == spaceId && (
      || (exists r :: r in space.rules && r.group == g && r.groupActive)
      || (exists t :: t in space.grants && t.group == g && t.groupActive)
      || (space.owner.Some? && space.owner.value.group == g && space.owner.value.active))
  }

  lemma {:induction false} AllowedIsPrefiltered(
    space: Space, groups: seq<Group>, p: Permission, categoryId: Id, now: int)
    requires Allowed(space, groups, p, Some(categoryId), now)
    ensures Prefilter(space, groups, now)
  {
    var scope := ScopeOf(space, groups, p, now);
    assert categoryId != "" ==> categoryId in scope.aclCategories.value;
    if !Prefilter(space, groups, now) {
      PrefilterLosesNothing(space, groups, p, now);
    }
  }

  /** A group that may act on the space is among the groups the audience query returns. */
  lemma {:induction false} AllowedIsRelated(
    spaces: seq<Space>, spaceId: Id, g: Group, p: Permission, categoryId: Id, now: int)
    requires UniqueIds(spaces) && May(spaces, [g], spaceId, p, Some(categoryId), now)
    ensures Related(spaces, spaceId, g)
  {
    MayIsAllowed(spaces, [g], spaceId, p, Some(categoryId), now);
    var space :| space in spaces && space.id == spaceId && Allowed(space, [g], p, Some(categoryId), now);
    AllowedIsPrefiltered(space, [g], p, categoryId, now);
  }

  /** One of these groups has this address and may do this alone. */
  ghost predicate Reached(spaces: seq<Space>, groups: seq<Group>, emails: Group -> seq<string>, spaceId: Id, p: Permission, categoryId: Id, now: int, address: string)
    requires UniqueIds(spaces)
  {
    exists g :: g in groups && May(spaces, [g], spaceId, p, Some(categoryId), now) && address in emails(g)
  }

  lemma {:induction false} ReachedSnoc(
    spaces: seq<Space>, groups: seq<Group>, group: Group,
    emails: Group -> seq<string>, spaceId: Id, p: Permission, categoryId: Id, now: int)
    requires UniqueIds(spaces)
    ensures forall address :: Reached(spaces, groups + [group], emails, spaceId, p, categoryId, now, address) <==>
                                Reached(spaces, groups, emails, spaceId, p, categoryId, now, address)
                                || (May(spaces, [group], spaceId, p, Some(categoryId), now) && address in emails(group))
  {
  }

  /** `groups` is the answer of the group query and `emails` the directory. */
  method SpaceAudience(
    spaces: seq<Space>, groups: seq<Group>,
    emails: Group -> seq<string>, spaceId: Id, p: Permission, categoryId: Id, now: int)
    returns (recipients: set<string>)
    requires UniqueIds(spaces)
    requires forall g :: g in groups <==> Related(spaces, spaceId, g)
    ensures forall address :: address in recipients <==>
                                exists g :: May(spaces, [g], spaceId, p, Some(categoryId), now) && address in emails(g)
  {
    recipients := {};
    for i := 0 to |groups|
      invariant forall address :: address in recipients <==> Reached(spaces, groups[..i], emails, spaceId, p, categoryId, now, address)
    {
      assert groups[..i + 1] == groups[..i] + [groups[i]];
      var allowed := Can(spaces, [groups[i]], spaceId, p, Some(categoryId), now);
      ReachedSnoc(spaces, groups[..i], groups[i], emails, spaceId, p, categoryId, now);
      if allowed {
        recipients := recipients + set address | address in emails(groups[i]);
      }
    }
    assert groups[..|groups|] == groups;
    forall g | May(spaces, [g], spaceId, p, Some(categoryId), now)
      ensures g in groups
    {
      AllowedIsRelated(spaces, spaceId, g, p, categoryId, now);
    }
  }

  /**
   The audience is exact: a member of the groups G receives mail at some address exactly when G
   may act, as long as each group that may act lists that member.
   */
  lemma {:induction false} AudienceIsExact(
    spaces: seq<Space>, groups: seq<Group>, emails: Group -> seq<string>, address: string,
    spaceId: Id, p: Permission, categoryId: Id, now: int)
    requires UniqueIds(spaces)
    requires forall g :: address in emails(g) <==> g in groups
    ensures (exists g :: May(spaces, [g], spaceId, p, Some(categoryId), now) && address in emails(g))
       <==> May(spaces, groups, spaceId, p, Some(categoryId), now)
  {
    AccessDistributes(spaces, groups, spaceId, p, Some(categoryId), now);
  }
}
