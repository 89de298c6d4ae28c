/** How a user's permissions are resolved from the layers, and what the rename migration
    does to the outcome. */
module RbacResolution {
  import opened Wrappers
  import opened PermissionRename

  datatype Layer = Group | Role | Delegation | User

  datatype Mode = Additive | Restrictive

  /** The result dictionary: effective codes and the layer credited with each. */
  type Effective = map<string, Layer>

  // ----- the merges, as the source's loops -----

  function Grants(os: seq<(string, bool)>, code: string): bool {
    (code, true) in os
  }

  function Revokes(os: seq<(string, bool)>, code: string): bool {
    (code, false) in os
  }

  /** The last override of a code in a list. */
  function LastOverride(os: seq<(string, bool)>, code: string): Option<bool> {
    if os == [] then None
    else if os[|os| - 1].0 == code then Some(os[|os| - 1].1)
    else LastOverride(os[..|os| - 1], code)
  }

  /** What restrictive mode decides for one code.  A group revocation outranks roles and
      delegations, although the group layer is documented as the lowest; and it does not
      outrank another group's grant when neither a role nor a delegation has the code. */
  function RestrictiveLayer(granted: bool, revoked: bool, role: bool, delegated: bool,
          user: Option<bool>): Option<Layer> {
    if user.Some? then (if user.value then Some(User) else None)
    else if role || delegated then
      (if revoked then None else if granted then Some(Group) else if role then Some(Role) else Some(Delegation))
    else if granted then Some(Group) else None
  }

  /** Whether the documented order gives the code: the highest of user, delegation, role and
      group layer that has a say decides. */
  predicate Documented(granted: bool, role: bool, delegated: bool, user: Option<bool>) {
    if user.Some? then user.value else delegated || role || granted
  }

  /** Restrictive mode departs from the documented order exactly when some group revokes a
      code a role or a delegation has, and the user has no override on it. */
  lemma DocumentedOrderExactly(granted: bool, revoked: bool, role: bool, delegated: bool, user: Option<bool>)
    ensures (RestrictiveLayer(granted, revoked, role, delegated, user).Some? <==>
             Documented(granted, role, delegated, user))
            <==> !(user.None? && revoked && (role || delegated))
  {
  }

  /** In additive mode a code is effective where any layer grants it. */
  ghost predicate Additively(groups: seq<(string, bool)>, roles: seq<string>, delegations: seq<string>,
          users: seq<(string, bool)>, e: Effective)
  {
    forall c: string ::
      && (c in e <==> (c, true) in users || (c, true) in groups || c in roles || c in delegations)
      && (c in e ==> e[c] == if (c, true) in users then User else if (c, true) in groups then Group
                             else if c in roles then Role else Delegation)
  }

  /** The last override of c in the list is b. */
  ghost predicate LastSays(os: seq<(string, bool)>, c: string, b: bool) {
    exists i :: LastAt(os, c, b, i)
  }

  ghost predicate LastAt(os: seq<(string, bool)>, c: string, b: bool, i: int) {
    0 <= i < |os| && os[i] == (c, b) && forall j :: i < j < |os| ==> os[j].0 != c
  }

  lemma LastSaysStep(os: seq<(string, bool)>, c: string, b: bool)
    requires os != []
    ensures LastSays(os, c, b) <==>
            var n := |os| - 1;
            os[n] == (c, b) || (os[n].0 != c && LastSays(os[..n], c, b))
  {
    var n := |os| - 1;
    if os[n] == (c, b) {
      assert LastAt(os, c, b, n);
    }
    forall i | 0 <= i < n && os[n].0 != c ensures LastAt(os, c, b, i) <==> LastAt(os[..n], c, b, i) {
      assert forall j :: 0 <= j < n ==> os[..n][j] == os[j];
    }
  }

  /** In restrictive mode the last override of the user decides.  Without one a code that a
      role or a delegation has is effective unless some group revokes it, and any other
      code if some group grants it. */
  ghost predicate Restrictively(groups: seq<(string, bool)>, roles: seq<string>, delegations: seq<string>,
          users: seq<(string, bool)>, e: Effective)
  {
    forall c: string ::
      && (LastSays(users, c, true) ==> c in e && e[c] == User)
      && (LastSays(users, c, false) ==> c !in e)
      && ((c, true) !in users && (c, false) !in users ==>
            && (c in e <==> if c in roles || c in delegations then (c, false) !in groups else (c, true) in groups)
            && (c in e ==> e[c] == if (c, true) in groups then Group else if c in roles then Role else Delegation))
  }

  lemma {:induction false} LastOverrideSays(os: seq<(string, bool)>, c: string)
    ensures LastOverride(os, c) == None <==> !Grants(os, c) && !Revokes(os, c)
    ensures forall b :: LastOverride(os, c) == Some(b) <==> LastSays(os, c, b)
    decreases |os|
  {
    if os != [] {
      var n := |os| - 1;
      LastOverrideSays(os[..n], c);
      OverridesSnoc(os, n);
      assert os[..n + 1] == os;
      forall b ensures LastOverride(os, c) == Some(b) <==> LastSays(os, c, b) {
        LastSaysStep(os, c, b);
        assert os[n] == (os[n].0, os[n].1);
      }
    }
  }

  function AdditiveLayer(granted: bool, role: bool, delegated: bool, userGrant: bool): Option<Layer> {
    if userGrant then Some(User)
    else if granted then Some(Group)
    else if role then Some(Role)
    else if delegated then Some(Delegation)
    else None
  }

  function Lookup(e: Effective, code: string): Option<Layer> {
    if code in e then Some(e[code]) else None
  }

  lemma OverrideSnoc(os: seq<(string, bool)>, i: nat, code: string, b: bool)
    requires i < |os|
    ensures (code, b) in os[..i + 1] <==> (code, b) in os[..i] || os[i] == (code, b)
  {
    assert os[..i + 1] == os[..i] + [os[i]];
  }

  lemma OverridesSnoc(os: seq<(string, bool)>, i: nat)
    requires i < |os|
    ensures forall c: string :: Grants(os[..i + 1], c) <==> (Grants(os[..i], c) || (os[i].0 == c && os[i].1))
    ensures forall c: string :: Revokes(os[..i + 1], c) <==> (Revokes(os[..i], c) || (os[i].0 == c && !os[i].1))
  {
    forall c: string
      ensures Grants(os[..i + 1], c) <==> (Grants(os[..i], c) || (os[i].0 == c && os[i].1))
      ensures Revokes(os[..i + 1], c) <==> (Revokes(os[..i], c) || (os[i].0 == c && !os[i].1))
    {
      OverrideSnoc(os, i, c, true);
      OverrideSnoc(os, i, c, false);
    }
  }

  /** The group layer, one override further. */
  lemma GroupStep(before: Effective, os: seq<(string, bool)>, i: nat)
    requires i < |os|
    requires forall c: string :: Lookup(before, c) == if Grants(os[..i], c) then Some(Group) else None
    ensures var after := if os[i].1 then before[os[i].0 := Group] else before;
            forall c: string :: Lookup(after, c) == if Grants(os[..i + 1], c) then Some(Group) else None
  {
    var after := if os[i].1 then before[os[i].0 := Group] else before;
    forall c: string ensures Lookup(after, c) == if Grants(os[..i + 1], c) then Some(Group) else None {
      OverrideSnoc(os, i, c, true);
      assert c != os[i].0 ==> Lookup(after, c) == Lookup(before, c);
    }
  }

  lemma ByLayers(groups: seq<(string, bool)>, roles: seq<string>, delegations: seq<string>,
          users: seq<(string, bool)>, e: Effective)
    requires forall c: string ::
               Lookup(e, c) == AdditiveLayer(Grants(groups, c), c in roles, c in delegations, Grants(users, c))
    ensures Additively(groups, roles, delegations, users, e)
  {
    forall c: string
      ensures c in e <==> (c, true) in users || (c, true) in groups || c in roles || c in delegations
      ensures c in e ==> e[c] == if (c, true) in users then User else if (c, true) in groups then Group
                                 else if c in roles then Role else Delegation
    {
      assert Lookup(e, c) == AdditiveLayer(Grants(groups, c), c in roles, c in delegations, Grants(users, c));
    }
  }

  lemma ByRestriction(groups: seq<(string, bool)>, roles: seq<string>, delegations: seq<string>,
          users: seq<(string, bool)>, e: Effective)
    requires forall c: string ::
               Lookup(e, c) == RestrictiveLayer(Grants(groups, c), Revokes(groups, c), c in roles, c in delegations,
                                   LastOverride(users, c))
    ensures Restrictively(groups, roles, delegations, users, e)
  {
    forall c: string
      ensures LastSays(users, c, true) ==> c in e && e[c] == User
      ensures LastSays(users, c, false) ==> c !in e
      ensures (c, true) !in users && (c, false) !in users ==>
                && (c in e <==> if c in roles || c in delegations then (c, false) !in groups else (c, true) in groups)
                && (c in e ==> e[c] == if (c, true) in groups then Group else if c in roles then Role else Delegation)
    {
      LastOverrideSays(users, c);
      assert Lookup(e, c) == RestrictiveLayer(Grants(groups, c), Revokes(groups, c), c in roles, c in delegations,
          LastOverride(users, c));
    }
  }

  method MergeAdditive(groups: seq<(string, bool)>, roles: seq<string>, delegations: seq<string>,
          users: seq<(string, bool)>)
    returns (effective: Effective)
    ensures forall c: string :: Lookup(effective, c) ==
              AdditiveLayer(Grants(groups, c), c in roles, c in delegations, Grants(users, c))
    ensures Additively(groups, roles, delegations, users, effective)
  {
    effective := map[];
    for i := 0 to |groups|
      invariant forall c: string :: Lookup(effective, c) == if Grants(groups[..i], c) then Some(Group) else None
    {
      OverridesSnoc(groups, i);
      GroupStep(effective, groups, i);
      if groups[i].1 {
        effective := effective[groups[i].0 := Group];
      }
    }
    assert groups[..|groups|] == groups;
    for i := 0 to |roles|
      invariant forall c: string ::
                  Lookup(effective, c) == AdditiveLayer(Grants(groups, c), c in roles[..i], false, false)
    {
      assert roles[..i + 1] == roles[..i] + [roles[i]];
      if roles[i] !in effective {
        effective := effective[roles[i] := Role];
      }
    }
    assert roles[..|roles|] == roles;
    for i := 0 to |delegations|
      invariant forall c: string :: Lookup(effective, c) ==
                  AdditiveLayer(Grants(groups, c), c in roles, c in delegations[..i], false)
    {
      assert delegations[..i + 1] == delegations[..i] + [delegations[i]];
      if delegations[i] !in effective {
        effective := effective[delegations[i] := Delegation];
      }
    }
    assert delegations[..|delegations|] == delegations;
    for i := 0 to |users|
      invariant forall c: string :: Lookup(effective, c) ==
                  AdditiveLayer(Grants(groups, c), c in roles, c in delegations, Grants(users[..i], c))
    {
      OverridesSnoc(users, i);
      if users[i].1 {
        effective := effective[users[i].0 := User];
      }
    }
    assert users[..|users|] == users;
    ByLayers(groups, roles, delegations, users, effective);
  }

  method MergeRestrictive(groups: seq<(string, bool)>, roles: seq<string>, delegations: seq<string>,
          users: seq<(string, bool)>)
    returns (effective: Effective)
    ensures forall c: string :: Lookup(effective, c) ==
              RestrictiveLayer(Grants(groups, c), Revokes(groups, c), c in roles, c in delegations,
                  LastOverride(users, c))
    ensures Restrictively(groups, roles, delegations, users, effective)
  {
    effective := map[];
    var groupRevokes: set<string> := {};
    for i := 0 to |groups|
      invariant forall c: string :: Lookup(effective, c) == if Grants(groups[..i], c) then Some(Group) else None
      invariant forall c: string :: c in groupRevokes <==> Revokes(groups[..i], c)
    {
      OverridesSnoc(groups, i);
      GroupStep(effective, groups, i);
      if groups[i].1 {
        effective := effective[groups[i].0 := Group];
      } else {
        groupRevokes := groupRevokes + {groups[i].0};
      }
    }
    assert groups[..|groups|] == groups;
    for i := 0 to |roles|
      invariant forall c: string :: Lookup(effective, c) ==
                  RestrictiveLayer(Grants(groups, c), Revokes(groups, c), c in roles[..i], false, None)
    {
      assert roles[..i + 1] == roles[..i] + [roles[i]];
      if roles[i] in groupRevokes {
        effective := effective - {roles[i]};
      } else if roles[i] !in effective {
        effective := effective[roles[i] := Role];
      }
    }
    assert roles[..|roles|] == roles;
    for i := 0 to |delegations|
      invariant forall c: string :: Lookup(effective, c) ==
                  RestrictiveLayer(Grants(groups, c), Revokes(groups, c), c in roles, c in delegations[..i], None)
    {
      assert delegations[..i + 1] == delegations[..i] + [delegations[i]];
      if delegations[i] in groupRevokes {
        effective := effective - {delegations[i]};
      } else if delegations[i] !in effective {
        effective := effective[delegations[i] := Delegation];
      }
    }
    assert delegations[..|delegations|] == delegations;
    for i := 0 to |users|
      invariant forall c: string :: Lookup(effective, c) ==
                  RestrictiveLayer(Grants(groups, c), Revokes(groups, c), c in roles, c in delegations,
                      LastOverride(users[..i], c))
    {
      assert users[..i + 1] == users[..i] + [users[i]];
      assert users[..i + 1][..i] == users[..i];
      if users[i].1 {
        effective := effective[users[i].0 := User];
      } else {
        effective := effective - {users[i].0};
      }
    }
    assert users[..|users|] == users;
    ByRestriction(groups, roles, delegations, users, effective);
  }

  // ----- resolution over the tables -----

  /** What the queries need to know of a user: the active groups joined, the roles those
      groups carry, and the codes of active delegations. */
  datatype Member = Member(id: nat, groups: set<nat>, roles: set<string>, delegated: set<string>)

  predicate GroupGrants(s: Slice, m: Member) {
    exists g :: g in m.groups && g in s.groups && s.groups[g]
  }

  predicate GroupRevokes(s: Slice, m: Member) {
    exists g :: g in m.groups && g in s.groups && !s.groups[g]
  }

  /** The layer a code is effective through, from the rows that name it. */
  function LayerOf(mode: Mode, s: Slice, m: Member, delegated: bool): Option<Layer> {
    var user := if m.id in s.users then Some(s.users[m.id]) else None;
    var role := s.roles * m.roles != {};
    if mode.Additive? then AdditiveLayer(GroupGrants(s, m), role, delegated, user == Some(true))
    else RestrictiveLayer(GroupGrants(s, m), GroupRevokes(s, m), role, delegated, user)
  }

  /** The lists the queries return for a member agree, code by code, with the rows. */
  ghost predicate Queried(t: Tables, m: Member, groups: seq<(string, bool)>, roles: seq<string>,
          delegations: seq<string>, users: seq<(string, bool)>) {
    forall c: string ::
      var s := SliceOf(t, c);
      && (Grants(groups, c) <==> GroupGrants(s, m))
      && (Revokes(groups, c) <==> GroupRevokes(s, m))
      && (c in roles <==> s.roles * m.roles != {})
      && (c in delegations <==> c in m.delegated)
      && LastOverride(users, c) == (if m.id in s.users then Some(s.users[m.id]) else None)
      && (Grants(users, c) <==> m.id in s.users && s.users[m.id])
  }

  /** _resolve_permissions, from the query results on. */
  method ResolvePermissions(mode: Mode, groups: seq<(string, bool)>, roles: seq<string>, delegations: seq<string>,
          users: seq<(string, bool)>,
                            ghost t: Tables, ghost m: Member)
    returns (effective: Effective)
    requires Queried(t, m, groups, roles, delegations, users)
    ensures forall c: string :: Lookup(effective, c) == LayerOf(mode, SliceOf(t, c), m, c in m.delegated)
    ensures mode.Additive? ==> Additively(groups, roles, delegations, users, effective)
    ensures mode.Restrictive? ==> Restrictively(groups, roles, delegations, users, effective)
  {
    if mode.Additive? {
      effective := MergeAdditive(groups, roles, delegations, users);
    } else {
      effective := MergeRestrictive(groups, roles, delegations, users);
    }
  }

  // ----- the migration seen through the resolver -----

  ghost function LayerIn(mode: Mode, t: Tables, m: Member, code: string): Option<Layer> {
    LayerOf(mode, SliceOf(t, code), m, code in m.delegated)
  }

  lemma SameRowsSameLayer(mode: Mode, t: Tables, c: string, u: Tables, d: string, m: Member)
    requires SliceOf(t, c) == SliceOf(u, d) && (c in m.delegated <==> d in m.delegated)
    ensures LayerIn(mode, t, m, c) == LayerIn(mode, u, m, d)
  {
  }

  /** A code no row names is effective only where it is delegated. */
  lemma NoRowsLayer(mode: Mode, t: Tables, c: string, m: Member)
    requires SliceOf(t, c) == NO_ROWS
    ensures LayerIn(mode, t, m, c) == if c in m.delegated then Some(Delegation) else None
  {
    assert !GroupGrants(NO_ROWS, m) && !GroupRevokes(NO_ROWS, m);
  }

  /** When a renaming is exact, every user has the new code afterwards through the layer
      that gave them the old one, in either mode -- provided an active delegation of
      theirs lists both codes or neither, for delegations are not renamed. */
  lemma RenamedCodesResolveAlike(mode: Mode, t: Tables, pairs: seq<Pair>, i: nat, m: Member)
    requires DistinctCodes(pairs) && i < |pairs|
    requires Within(SliceOf(t, pairs[i].new_), SliceOf(t, pairs[i].old_))
    requires pairs[i].new_ in m.delegated <==> pairs[i].old_ in m.delegated
    ensures LayerIn(mode, AllMigrated(t, pairs), m, pairs[i].new_) == LayerIn(mode, t, m, pairs[i].old_)
  {
    RenamingExactly(t, pairs, i);
    SameRowsSameLayer(mode, AllMigrated(t, pairs), pairs[i].new_, t, pairs[i].old_, m);
  }

  /** Afterwards an old code is effective only where it is delegated. */
  lemma OldCodesResolveByDelegation(mode: Mode, t: Tables, pairs: seq<Pair>, i: nat, m: Member)
    requires DistinctCodes(pairs) && i < |pairs|
    ensures LayerIn(mode, AllMigrated(t, pairs), m, pairs[i].old_) ==
            if pairs[i].old_ in m.delegated then Some(Delegation) else None
  {
    LoopByCode(t, pairs, i);
    NoRowsLayer(mode, AllMigrated(t, pairs), pairs[i].old_, m);
  }

  /** Codes outside the map resolve as before. */
  lemma OtherCodesResolveAlike(mode: Mode, t: Tables, pairs: seq<Pair>, code: string, m: Member)
    requires DistinctCodes(pairs) && !Mentioned(pairs, code)
    ensures LayerIn(mode, AllMigrated(t, pairs), m, code) == LayerIn(mode, t, m, code)
  {
    OtherCodesUntouched(t, pairs, code);
    SameRowsSameLayer(mode, AllMigrated(t, pairs), code, t, code, m);
  }

  /** The rows that name a code settle it for the member, delegated or not. */
  predicate RowsDecide(mode: Mode, s: Slice, m: Member) {
    var role := s.roles * m.roles != {};
    if mode.Additive? then GroupGrants(s, m) || role || (m.id in s.users && s.users[m.id])
    else m.id in s.users || role || (GroupGrants(s, m) <==> !GroupRevokes(s, m))
  }

  lemma DelegationMattersExactly(mode: Mode, s: Slice, m: Member)
    ensures LayerOf(mode, s, m, true) == LayerOf(mode, s, m, false) <==> RowsDecide(mode, s, m)
  {
  }

  /** Under an exact renaming a user has the new code afterwards as they had the old one
      exactly when their delegations list both codes or neither, or the rows settle the
      code without them. */
  lemma DelegationsAreNotRenamed(mode: Mode, t: Tables, pairs: seq<Pair>, i: nat, m: Member)
    requires DistinctCodes(pairs) && i < |pairs|
    requires Within(SliceOf(t, pairs[i].new_), SliceOf(t, pairs[i].old_))
    ensures LayerIn(mode, AllMigrated(t, pairs), m, pairs[i].new_) == LayerIn(mode, t, m, pairs[i].old_)
            <==> (pairs[i].new_ in m.delegated <==> pairs[i].old_ in m.delegated)
                 || RowsDecide(mode, SliceOf(t, pairs[i].old_), m)
  {
    RenamingExactly(t, pairs, i);
    DelegationMattersExactly(mode, SliceOf(t, pairs[i].old_), m);
  }

  /** A user who has the first old code by delegation alone loses it, and does not get the
      new one. */
  lemma DelegationLosesACode(mode: Mode) returns (t: Tables, m: Member)
    ensures ForeignKeys(t) && m.delegated == {PERMISSION_MAP[0].old_}
    ensures LayerIn(mode, t, m, PERMISSION_MAP[0].old_) == Some(Delegation)
    ensures LayerIn(mode, AllMigrated(t, PERMISSION_MAP), m, PERMISSION_MAP[0].new_) == None
  {
    t := Tables(map[], {}, map[], map[]);
    m := Member(0, {}, {}, {PERMISSION_MAP[0].old_});
    var (old_, new_) := (PERMISSION_MAP[0].old_, PERMISSION_MAP[0].new_);
    assert SliceOf(t, old_) == NO_ROWS && SliceOf(t, new_) == NO_ROWS;
    MapIsDistinct();
    RenamingExactly(t, PERMISSION_MAP, 0);
    NoRowsLayer(mode, t, old_, m);
    NoRowsLayer(mode, AllMigrated(t, PERMISSION_MAP), new_, m);
  }

  /** A role grants a code, and a group revokes it. */
  lemma RoleAndRevocation(code: string, role: string) returns (t: Tables)
    ensures ForeignKeys(t)
    ensures SliceOf(t, code) == Slice({role}, map[0 := false], map[])
  {
    t := Tables(map[code := Permission(code, None, None)], {(role, code)}, map[(0, code) := false], map[]);
    forall r: string ensures r in Holders(t.roles, code) <==> r == role {
      assert r in Holders(t.roles, code) <==> (r, code) in t.roles;
    }
    forall g: nat ensures g in OverridesOn(t.groups, code) <==> g == 0 {
      OverridesOnAt(t.groups, code, g);
    }
    OverridesOnAt(t.groups, code, 0);
    assert OverridesOn(t.groups, code) == map[0 := false];
    assert OverridesOn(t.users, code) == map[];
  }

  /** In restrictive mode a group revocation takes away a code that a role of the same group
      grants, although the role layer is documented as the higher one. */
  lemma GroupRevocationTakesARole(code: string, role: string) returns (t: Tables, m: Member)
    ensures ForeignKeys(t) && SliceOf(t, code) == Slice({role}, map[0 := false], map[])
    ensures m == Member(0, {0}, {role}, {})
    ensures LayerIn(Additive, t, m, code) == Some(Role) && LayerIn(Restrictive, t, m, code) == None
  {
    t := RoleAndRevocation(code, role);
    m := Member(0, {0}, {role}, {});
    var s := Slice({role}, map[0 := false], map[]);
    assert role in s.roles * m.roles;
    assert 0 in m.groups && 0 in s.groups && !s.groups[0];
    assert GroupRevokes(s, m) && !GroupGrants(s, m);
  }
}
