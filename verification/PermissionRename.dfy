/** The migration that renames five permission codes, statement by statement. */
module PermissionRename {
  import opened Wrappers

  datatype Permission = Permission(name: string, owner: Option<string>, description: Option<string>)

  /** permissions by code; role grants; and the group and user overrides, whose primary
      keys are (group, code) and (user, code). */
  datatype Tables = Tables(
    permissions: map<string, Permission>,
    roles: set<(string, string)>,
    groups: map<(nat, string), bool>,
    users: map<(nat, string), bool>)

  /** One entry of PERMISSION_MAP. */
  datatype Pair = Pair(old_: string, new_: string, description: string)

  const PERMISSION_MAP := [
    Pair("travelwiz.cargo.read", "packlog.cargo.read", "Read cargo requests and cargo items"),
    Pair("travelwiz.cargo.read_all", "packlog.cargo.read_all", "Read all cargo requests and cargo items"),
    Pair("travelwiz.cargo.create", "packlog.cargo.create", "Create cargo requests and cargo items"),
    Pair("travelwiz.cargo.update", "packlog.cargo.update", "Update cargo requests and cargo items"),
    Pair("travelwiz.cargo.receive", "packlog.cargo.receive", "Receive cargo items and confirm delivery")
  ]

  // ----- what the tables say about one code -----

  type Grants = set<(string, string)>
  type Overrides = map<(nat, string), bool>

  /** The rows that name a code: who has it through roles, and the overrides on it. */
  datatype Slice = Slice(roles: set<string>, groups: map<nat, bool>, users: map<nat, bool>)

  function Holders(rs: Grants, code: string): set<string> {
    set r | r in rs && r.1 == code :: r.0
  }

  function OverridesOn(os: Overrides, code: string): map<nat, bool> {
    map o | o in os && o.1 == code :: o.0 := os[o]
  }

  function SliceOf(t: Tables, code: string): Slice {
    Slice(Holders(t.roles, code), OverridesOn(t.groups, code), OverridesOn(t.users, code))
  }

  const NO_ROWS := Slice({}, map[], map[])

  /** Overrides of the second take precedence; role grants add up. */
  function Merge(a: Slice, b: Slice): Slice {
    Slice(a.roles + b.roles, a.groups + b.groups, a.users + b.users)
  }

  /** Every role, group and user row names an existing permission. */
  predicate ForeignKeys(t: Tables) {
    && (forall r :: r in t.roles ==> r.1 in t.permissions)
    && (forall g :: g in t.groups ==> g.1 in t.permissions)
    && (forall u :: u in t.users ==> u.1 in t.permissions)
  }

  /** Nothing refers to the code. */
  predicate Unreferenced(t: Tables, code: string) {
    && (forall r :: r in t.roles ==> r.1 != code)
    && (forall g :: g in t.groups ==> g.1 != code)
    && (forall u :: u in t.users ==> u.1 != code)
  }

  // ----- what the migration promises of the tables -----

  /** The row of a code inserted for packlog: a new one is named after the code, an old one
      keeps its name and, if it has one, its description. */
  ghost predicate Inserted(before: map<string, Permission>, after: map<string, Permission>, p: Pair) {
    && p.new_ in after && after[p.new_].owner == Some("packlog")
    && after[p.new_].name == (if p.new_ in before then before[p.new_].name else p.new_)
    && (p.new_ in before && before[p.new_].description.Some? ==>
          after[p.new_].description == before[p.new_].description)
    && (p.new_ !in before || before[p.new_].description.None? ==> after[p.new_].description == Some(p.description))
  }

  /** Overrides of the old code became overrides of the new one, in place of its own. */
  ghost predicate OverridesMoved(before: Overrides, after: Overrides, p: Pair) {
    forall x: nat ::
      && (x, p.old_) !in after
      && ((x, p.new_) in after <==> (x, p.new_) in before || (x, p.old_) in before)
      && ((x, p.old_) in before ==> (x, p.new_) in after && after[(x, p.new_)] == before[(x, p.old_)])
      && ((x, p.old_) !in before && (x, p.new_) in before ==>
            (x, p.new_) in after && after[(x, p.new_)] == before[(x, p.new_)])
  }

  /** The old code is gone, and the new one has its permission and everything either code had. */
  ghost predicate CodeMoved(t: Tables, u: Tables, p: Pair) {
    && p.old_ !in u.permissions && Inserted(t.permissions, u.permissions, p)
    && (forall r: string :: (r, p.old_) !in u.roles
                            && ((r, p.new_) in u.roles <==> (r, p.new_) in t.roles || (r, p.old_) in t.roles))
    && OverridesMoved(t.groups, u.groups, p) && OverridesMoved(t.users, u.users, p)
  }

  ghost predicate OverridesKept(before: Overrides, after: Overrides, code: string) {
    forall x: nat :: ((x, code) in after <==> (x, code) in before)
                     && ((x, code) in before ==> after[(x, code)] == before[(x, code)])
  }

  /** Nothing about the code changed. */
  ghost predicate CodeKept(t: Tables, u: Tables, code: string) {
    && (code in u.permissions <==> code in t.permissions)
    && (code in t.permissions ==> u.permissions[code] == t.permissions[code])
    && (forall r: string :: (r, code) in u.roles <==> (r, code) in t.roles)
    && OverridesKept(t.groups, u.groups, code) && OverridesKept(t.users, u.users, code)
  }

  // ----- the statements -----

  function Upserted(t: Tables, p: Pair): Tables {
    var row :=
      if p.new_ in t.permissions
      then
        var was := t.permissions[p.new_];
        was.(owner := Some("packlog"),
             description := if was.description.Some? then was.description else Some(p.description))
      else Permission(p.new_, Some("packlog"), Some(p.description));
    t.(permissions := t.permissions[p.new_ := row])
  }

  /** INSERT .. SELECT .. ON CONFLICT DO NOTHING. */
  function GrantsCopied(rs: Grants, p: Pair): Grants {
    rs + (set r | r in rs && r.1 == p.old_ :: (r.0, p.new_))
  }

  /** INSERT .. SELECT .. ON CONFLICT DO UPDATE. */
  function OverridesCopied(os: Overrides, p: Pair): Overrides {
    os + (map o | o in os && o.1 == p.old_ :: (o.0, p.new_) := os[o])
  }

  function GrantsWithout(rs: Grants, code: string): Grants {
    set r | r in rs && r.1 != code
  }

  function OverridesWithout(os: Overrides, code: string): Overrides {
    map o | o in os && o.1 != code :: os[o]
  }

  function RolesCopied(t: Tables, p: Pair): Tables {
    t.(roles := GrantsCopied(t.roles, p))
  }

  function GroupsCopied(t: Tables, p: Pair): Tables {
    t.(groups := OverridesCopied(t.groups, p))
  }

  function UsersCopied(t: Tables, p: Pair): Tables {
    t.(users := OverridesCopied(t.users, p))
  }

  function ReferencesDeleted(t: Tables, code: string): Tables {
    t.(roles := GrantsWithout(t.roles, code),
       groups := OverridesWithout(t.groups, code),
       users := OverridesWithout(t.users, code))
  }

  function PermissionDeleted(t: Tables, code: string): Tables {
    t.(permissions := t.permissions - {code})
  }

  function Copied(t: Tables, p: Pair): Tables {
    UsersCopied(GroupsCopied(RolesCopied(t, p), p), p)
  }

  /** One round of the loop. */
  function Migrated(t: Tables, p: Pair): Tables {
    PermissionDeleted(ReferencesDeleted(Copied(Upserted(t, p), p), p.old_), p.old_)
  }

  function AllMigrated(t: Tables, pairs: seq<Pair>): Tables {
    if pairs == [] then t else Migrated(AllMigrated(t, pairs[..|pairs| - 1]), pairs[|pairs| - 1])
  }

  class PermissionTables {
    var permissions: map<string, Permission>
    var roles: set<(string, string)>
    var groups: map<(nat, string), bool>
    var users: map<(nat, string), bool>

    ghost function View(): Tables
      reads this
    {
      Tables(permissions, roles, groups, users)
    }

    /** INSERT INTO permissions .. ON CONFLICT (code) DO UPDATE. */
    method UpsertPermission(p: Pair)
      requires ForeignKeys(View())
      modifies this
      ensures View() == Upserted(old(View()), p) && ForeignKeys(View())
      ensures Inserted(old(permissions), permissions, p)
      ensures permissions == old(permissions)[p.new_ := permissions[p.new_]]
      ensures roles == old(roles) && groups == old(groups) && users == old(users)
    {
      if p.new_ in permissions {
        var row := permissions[p.new_];
        row := row.(owner := Some("packlog"));
        if row.description.None? {
          row := row.(description := Some(p.description));
        }
        permissions := permissions[p.new_ := row];
      } else {
        permissions := permissions[p.new_ := Permission(p.new_, Some("packlog"), Some(p.description))];
      }
    }

    /** INSERT INTO role_permissions SELECT .. ON CONFLICT DO NOTHING. */
    method CopyRoles(p: Pair)
      requires ForeignKeys(View()) && p.new_ in permissions
      modifies this
      ensures View() == RolesCopied(old(View()), p) && ForeignKeys(View())
    {
      var copies := set r | r in roles && r.1 == p.old_ :: (r.0, p.new_);
      roles := roles + copies;
    }

    /** INSERT INTO group_permission_overrides SELECT .. ON CONFLICT DO UPDATE. */
    method CopyGroups(p: Pair)
      requires ForeignKeys(View()) && p.new_ in permissions
      modifies this
      ensures View() == GroupsCopied(old(View()), p) && ForeignKeys(View())
    {
      groups := OverridesCopied(groups, p);
    }

    /** INSERT INTO user_permission_overrides SELECT .. ON CONFLICT DO UPDATE. */
    method CopyUsers(p: Pair)
      requires ForeignKeys(View()) && p.new_ in permissions
      modifies this
      ensures View() == UsersCopied(old(View()), p) && ForeignKeys(View())
    {
      users := OverridesCopied(users, p);
    }

    /** The three DELETEs of rows that name the old code. */
    method DeleteReferences(code: string)
      requires ForeignKeys(View())
      modifies this
      ensures View() == ReferencesDeleted(old(View()), code) && ForeignKeys(View()) && Unreferenced(View(), code)
    {
      roles := set r | r in roles && r.1 != code;
      groups := map g | g in groups && g.1 != code :: groups[g];
      users := map u | u in users && u.1 != code :: users[u];
    }

    /** DELETE FROM permissions: refused while some row names the code. */
    method DeletePermission(code: string) returns (ok: bool)
      requires ForeignKeys(View())
      modifies this
      ensures ok <==> Unreferenced(old(View()), code)
      ensures View() == (if ok then PermissionDeleted(old(View()), code) else old(View())) && ForeignKeys(View())
    {
      ok := (forall r :: r in roles ==> r.1 != code)
            && (forall g :: g in groups ==> g.1 != code)
            && (forall u :: u in users ==> u.1 != code);
      if ok {
        permissions := permissions - {code};
      }
    }

    /** upgrade's loop.  Foreign keys resolve after every statement, and no statement is
        refused. */
    method Upgrade(pairs: seq<Pair>) returns (ok: bool)
      requires ForeignKeys(View())
      modifies this
      ensures ok && View() == AllMigrated(old(View()), pairs) && ForeignKeys(View())
      ensures DistinctCodes(pairs) ==> forall i :: 0 <= i < |pairs| ==> CodeMoved(old(View()), View(), pairs[i])
      ensures DistinctCodes(pairs) ==> forall code :: !Mentioned(pairs, code) ==> CodeKept(old(View()), View(), code)
    {
      ok := true;
      for i := 0 to |pairs|
        invariant ok && View() == AllMigrated(old(View()), pairs[..i]) && ForeignKeys(View())
      {
        assert pairs[..i + 1][..i] == pairs[..i];
        var p := pairs[i];
        UpsertPermission(p);
        CopyRoles(p);
        CopyGroups(p);
        CopyUsers(p);
        DeleteReferences(p.old_);
        ok := DeletePermission(p.old_);
      }
      assert pairs[..|pairs|] == pairs;
      if DistinctCodes(pairs) {
        forall i | 0 <= i < |pairs| ensures CodeMoved(old(View()), View(), pairs[i]) {
          CodesMove(old(View()), pairs, i);
        }
        forall code | !Mentioned(pairs, code) ensures CodeKept(old(View()), View(), code) {
          CodesStay(old(View()), pairs, code);
        }
      }
    }
  }

  // ----- one round, code by code -----

  lemma GrantsRound(rs: Grants, p: Pair, code: string)
    requires p.old_ != p.new_
    ensures Holders(GrantsWithout(GrantsCopied(rs, p), p.old_), code) ==
            if code == p.old_ then {}
            else if code == p.new_ then Holders(rs, p.new_) + Holders(rs, p.old_)
            else Holders(rs, code)
  {
    var m := GrantsWithout(GrantsCopied(rs, p), p.old_);
    forall r: string, c: string ensures r in Holders(rs, c) <==> (r, c) in rs {
      assert (r, c).1 == c;
    }
    forall r: string ensures r in Holders(m, code) <==> (r, code) in m {
      assert (r, code).1 == code;
    }
    forall r: string
      ensures (r, code) in GrantsCopied(rs, p) <==> (r, code) in rs || (code == p.new_ && (r, p.old_) in rs)
    {
      assert (r, p.old_).1 == p.old_;
    }
  }

  lemma OverridesOnAt(os: Overrides, code: string, x: nat)
    ensures x in OverridesOn(os, code) <==> (x, code) in os
    ensures (x, code) in os ==> OverridesOn(os, code)[x] == os[(x, code)]
  {
    assert (x, code).1 == code;
  }

  lemma OverridesMovedAt(os: Overrides, p: Pair, code: string, x: nat)
    requires p.old_ != p.new_
    ensures var m := OverridesWithout(OverridesCopied(os, p), p.old_);
            && ((x, code) in m <==> code != p.old_ && ((x, code) in os || (code == p.new_ && (x, p.old_) in os)))
            && ((x, code) in m ==>
                m[(x, code)] == if code == p.new_ && (x, p.old_) in os then os[(x, p.old_)] else os[(x, code)])
  {
    assert (x, p.old_).1 == p.old_ && (x, code).1 == code;
  }

  lemma OverridesRound(os: Overrides, p: Pair, code: string)
    requires p.old_ != p.new_
    ensures OverridesOn(OverridesWithout(OverridesCopied(os, p), p.old_), code) ==
            if code == p.old_ then map[]
            else if code == p.new_ then OverridesOn(os, p.new_) + OverridesOn(os, p.old_)
            else OverridesOn(os, code)
  {
    var m := OverridesWithout(OverridesCopied(os, p), p.old_);
    var after := OverridesOn(m, code);
    var expected := if code == p.old_ then map[]
                    else if code == p.new_ then OverridesOn(os, p.new_) + OverridesOn(os, p.old_)
                    else OverridesOn(os, code);
    forall x: nat ensures x in after <==> x in expected
                  ensures x in after ==> after[x] == expected[x]
    {
      OverridesOnAt(m, code, x);
      OverridesMovedAt(os, p, code, x);
      OverridesOnAt(os, p.new_, x);
      OverridesOnAt(os, p.old_, x);
      OverridesOnAt(os, code, x);
    }
  }

  /** A round moves the old code's rows onto the new code, where they win over rows
      already there, and leaves every other code's rows and permission alone. */
  ghost predicate RoundOn(t: Tables, u: Tables, p: Pair, code: string) {
    if code == p.old_ then SliceOf(u, code) == NO_ROWS && code !in u.permissions
    else if code == p.new_ then
      SliceOf(u, code) == Merge(SliceOf(t, p.new_), SliceOf(t, p.old_))
      && Inserted(t.permissions, u.permissions, p)
    else
      SliceOf(u, code) == SliceOf(t, code)
      && (code in u.permissions <==> code in t.permissions)
      && (code in t.permissions ==> u.permissions[code] == t.permissions[code])
  }

  lemma RoundByCode(t: Tables, p: Pair, code: string)
    requires p.old_ != p.new_
    ensures RoundOn(t, Migrated(t, p), p, code)
  {
    SliceRound(t, p, code);
    PermissionsRound(t, p, code);
  }

  lemma SliceRound(t: Tables, p: Pair, code: string)
    requires p.old_ != p.new_
    ensures SliceOf(Migrated(t, p), code) ==
            if code == p.old_ then NO_ROWS
            else if code == p.new_ then Merge(SliceOf(t, p.new_), SliceOf(t, p.old_))
            else SliceOf(t, code)
  {
    MigratedParts(t, p);
    GrantsRound(t.roles, p, code);
    OverridesRound(t.groups, p, code);
    OverridesRound(t.users, p, code);
  }

  lemma MigratedParts(t: Tables, p: Pair)
    ensures Migrated(t, p).roles == GrantsWithout(GrantsCopied(t.roles, p), p.old_)
    ensures Migrated(t, p).groups == OverridesWithout(OverridesCopied(t.groups, p), p.old_)
    ensures Migrated(t, p).users == OverridesWithout(OverridesCopied(t.users, p), p.old_)
    ensures Migrated(t, p).permissions == Upserted(t, p).permissions - {p.old_}
  {
  }

  lemma PermissionsRound(t: Tables, p: Pair, code: string)
    requires p.old_ != p.new_
    ensures code in Migrated(t, p).permissions <==> code != p.old_ && (code == p.new_ || code in t.permissions)
    ensures code in t.permissions && code != p.old_ && code != p.new_ ==>
        Migrated(t, p).permissions[code] == t.permissions[code]
    ensures Inserted(t.permissions, Migrated(t, p).permissions, p)
  {
    MigratedParts(t, p);
  }

  // ----- the whole loop -----

  /** The states between the rounds. */
  ghost predicate Rounds(ts: seq<Tables>, pairs: seq<Pair>) {
    |ts| == |pairs| + 1 && forall k, code: string :: 0 <= k < |pairs| ==> RoundAt(ts, pairs, k, code)
  }

  ghost predicate RoundAt(ts: seq<Tables>, pairs: seq<Pair>, k: nat, code: string)
    requires k < |pairs| && |ts| == |pairs| + 1
  {
    RoundOn(ts[k], ts[k + 1], pairs[k], code)
  }

  lemma {:induction false} LoopRounds(t: Tables, pairs: seq<Pair>) returns (ts: seq<Tables>)
    requires DistinctCodes(pairs)
    ensures Rounds(ts, pairs) && ts[0] == t && ts[|pairs|] == AllMigrated(t, pairs)
    decreases |pairs|
  {
    if pairs == [] {
      ts := [t];
    } else {
      var n := |pairs| - 1;
      var front := LoopRounds(t, pairs[..n]);
      ts := front + [AllMigrated(t, pairs)];
      forall k, code: string | 0 <= k < |pairs| ensures RoundAt(ts, pairs, k, code) {
        if k < n {
          assert RoundAt(front, pairs[..n], k, code);
        } else {
          RoundByCode(front[n], pairs[n], code);
        }
      }
    }
  }

  /** All the codes of the map are different. */
  predicate DistinctCodes(pairs: seq<Pair>) {
    forall i, j :: 0 <= i < |pairs| && 0 <= j < |pairs| ==>
      pairs[i].old_ != pairs[j].new_ && (i != j ==> pairs[i].old_ != pairs[j].old_ && pairs[i].new_ != pairs[j].new_)
  }

  predicate Mentioned(pairs: seq<Pair>, code: string) {
    exists i :: 0 <= i < |pairs| && (pairs[i].old_ == code || pairs[i].new_ == code)
  }

  lemma {:induction false} UntouchedBetween(ts: seq<Tables>, pairs: seq<Pair>, code: string, i: nat, j: nat)
    requires Rounds(ts, pairs) && i <= j <= |pairs|
    requires forall k :: i <= k < j ==> pairs[k].old_ != code && pairs[k].new_ != code
    ensures SliceOf(ts[j], code) == SliceOf(ts[i], code)
    ensures code in ts[j].permissions <==> code in ts[i].permissions
    ensures code in ts[i].permissions ==> ts[j].permissions[code] == ts[i].permissions[code]
    decreases j - i
  {
    if i < j {
      UntouchedBetween(ts, pairs, code, i, j - 1);
      assert RoundAt(ts, pairs, j - 1, code);
    }
  }

  /** Rows and permissions of codes outside the map are untouched. */
  lemma OtherCodesUntouched(t: Tables, pairs: seq<Pair>, code: string)
    requires DistinctCodes(pairs) && !Mentioned(pairs, code)
    ensures SliceOf(AllMigrated(t, pairs), code) == SliceOf(t, code)
    ensures code in AllMigrated(t, pairs).permissions <==> code in t.permissions
    ensures code in t.permissions ==> AllMigrated(t, pairs).permissions[code] == t.permissions[code]
  {
    var ts := LoopRounds(t, pairs);
    UntouchedBetween(ts, pairs, code, 0, |pairs|);
  }

  lemma OldCodeGone(ts: seq<Tables>, pairs: seq<Pair>, i: nat)
    requires Rounds(ts, pairs) && DistinctCodes(pairs) && i < |pairs|
    ensures SliceOf(ts[|pairs|], pairs[i].old_) == NO_ROWS && pairs[i].old_ !in ts[|pairs|].permissions
  {
    assert RoundAt(ts, pairs, i, pairs[i].old_);
    UntouchedBetween(ts, pairs, pairs[i].old_, i + 1, |pairs|);
  }

  lemma NewCodeMerged(ts: seq<Tables>, pairs: seq<Pair>, i: nat)
    requires Rounds(ts, pairs) && DistinctCodes(pairs) && i < |pairs|
    ensures SliceOf(ts[|pairs|], pairs[i].new_) == Merge(SliceOf(ts[0], pairs[i].new_), SliceOf(ts[0], pairs[i].old_))
    ensures Inserted(ts[0].permissions, ts[|pairs|].permissions, pairs[i])
  {
    UntouchedBetween(ts, pairs, pairs[i].old_, 0, i);
    UntouchedBetween(ts, pairs, pairs[i].new_, 0, i);
    assert RoundAt(ts, pairs, i, pairs[i].new_);
    UntouchedBetween(ts, pairs, pairs[i].new_, i + 1, |pairs|);
  }

  /** After the loop no permission, role, group or user row names an old code, and each
      new code has its own rows overridden by the old code's. */
  lemma LoopByCode(t: Tables, pairs: seq<Pair>, i: nat)
    requires DistinctCodes(pairs) && i < |pairs|
    ensures SliceOf(AllMigrated(t, pairs), pairs[i].old_) == NO_ROWS
    ensures pairs[i].old_ !in AllMigrated(t, pairs).permissions
    ensures Inserted(t.permissions, AllMigrated(t, pairs).permissions, pairs[i])
    ensures SliceOf(AllMigrated(t, pairs), pairs[i].new_) ==
            Merge(SliceOf(t, pairs[i].new_), SliceOf(t, pairs[i].old_))
  {
    var ts := LoopRounds(t, pairs);
    OldCodeGone(ts, pairs, i);
    NewCodeMerged(ts, pairs, i);
  }

  lemma HoldersAt(rs: Grants, code: string, r: string)
    ensures r in Holders(rs, code) <==> (r, code) in rs
  {
    assert (r, code).1 == code;
  }

  lemma MergedOverrides(before: Overrides, after: Overrides, p: Pair)
    requires OverridesOn(after, p.old_) == map[]
    requires OverridesOn(after, p.new_) == OverridesOn(before, p.new_) + OverridesOn(before, p.old_)
    ensures OverridesMoved(before, after, p)
  {
    forall x: nat
      ensures (x, p.old_) !in after
      ensures (x, p.new_) in after <==> (x, p.new_) in before || (x, p.old_) in before
      ensures (x, p.old_) in before ==> (x, p.new_) in after && after[(x, p.new_)] == before[(x, p.old_)]
      ensures (x, p.old_) !in before && (x, p.new_) in before ==>
                (x, p.new_) in after && after[(x, p.new_)] == before[(x, p.new_)]
    {
      OverridesOnAt(after, p.old_, x);
      OverridesOnAt(after, p.new_, x);
      OverridesOnAt(before, p.old_, x);
      OverridesOnAt(before, p.new_, x);
    }
  }

  /** Each pair of the map: everything of the old code is the new code's afterwards. */
  lemma CodesMove(t: Tables, pairs: seq<Pair>, i: nat)
    requires DistinctCodes(pairs) && i < |pairs|
    ensures CodeMoved(t, AllMigrated(t, pairs), pairs[i])
  {
    var (u, p) := (AllMigrated(t, pairs), pairs[i]);
    LoopByCode(t, pairs, i);
    forall r: string
      ensures (r, p.old_) !in u.roles
      ensures (r, p.new_) in u.roles <==> (r, p.new_) in t.roles || (r, p.old_) in t.roles
    {
      HoldersAt(u.roles, p.old_, r);
      HoldersAt(u.roles, p.new_, r);
      HoldersAt(t.roles, p.old_, r);
      HoldersAt(t.roles, p.new_, r);
    }
    MergedOverrides(t.groups, u.groups, p);
    MergedOverrides(t.users, u.users, p);
  }

  lemma SameOverrides(before: Overrides, after: Overrides, code: string)
    requires OverridesOn(after, code) == OverridesOn(before, code)
    ensures OverridesKept(before, after, code)
  {
    forall x: nat
      ensures (x, code) in after <==> (x, code) in before
      ensures (x, code) in before ==> after[(x, code)] == before[(x, code)]
    {
      OverridesOnAt(after, code, x);
      OverridesOnAt(before, code, x);
    }
  }

  /** Any other code has what it had. */
  lemma CodesStay(t: Tables, pairs: seq<Pair>, code: string)
    requires DistinctCodes(pairs) && !Mentioned(pairs, code)
    ensures CodeKept(t, AllMigrated(t, pairs), code)
  {
    var u := AllMigrated(t, pairs);
    OtherCodesUntouched(t, pairs, code);
    forall r: string ensures (r, code) in u.roles <==> (r, code) in t.roles {
      HoldersAt(u.roles, code, r);
      HoldersAt(t.roles, code, r);
    }
    SameOverrides(t.groups, u.groups, code);
    SameOverrides(t.users, u.users, code);
  }

  /** Every role, group and user with a row for the second code has one for the first. */
  predicate Within(b: Slice, a: Slice) {
    b.roles <= a.roles && b.groups.Keys <= a.groups.Keys && b.users.Keys <= a.users.Keys
  }

  /** The loop is an exact renaming of a code -- the new code afterwards has just the rows
      the old one had -- exactly when no role, group or user had a row for the new code
      without having one for the old. */
  lemma RenamingExactly(t: Tables, pairs: seq<Pair>, i: nat)
    requires DistinctCodes(pairs) && i < |pairs|
    ensures SliceOf(AllMigrated(t, pairs), pairs[i].new_) == SliceOf(t, pairs[i].old_)
            <==> Within(SliceOf(t, pairs[i].new_), SliceOf(t, pairs[i].old_))
  {
    LoopByCode(t, pairs, i);
    MergeAbsorbs(SliceOf(t, pairs[i].new_), SliceOf(t, pairs[i].old_));
  }

  lemma MergeAbsorbs(b: Slice, a: Slice)
    ensures Merge(b, a) == a <==> Within(b, a)
  {
    assert (b.roles + a.roles == a.roles) <==> b.roles <= a.roles;
    assert (b.groups + a.groups).Keys == b.groups.Keys + a.groups.Keys;
    assert (b.users + a.users).Keys == b.users.Keys + a.users.Keys;
    if Within(b, a) {
      assert b.groups + a.groups == a.groups;
      assert b.users + a.users == a.users;
    }
    if Merge(b, a) == a {
      assert b.groups.Keys <= (b.groups + a.groups).Keys;
      assert b.users.Keys <= (b.users + a.users).Keys;
    }
  }

  /** The five pairs of the migration are as the results above require. */
  lemma MapIsDistinct()
    ensures DistinctCodes(PERMISSION_MAP)
  {
    var lens := [20, 24, 22, 22, 23];
    assert forall i :: 0 <= i < 5 ==> PERMISSION_MAP[i].old_[0] == 't' && PERMISSION_MAP[i].new_[0] == 'p';
    assert forall i :: 0 <= i < 5 ==> |PERMISSION_MAP[i].old_| == lens[i] && |PERMISSION_MAP[i].new_| == lens[i] - 2;
    assert PERMISSION_MAP[2].old_[16] == 'c' && PERMISSION_MAP[3].old_[16] == 'u';
    assert PERMISSION_MAP[2].new_[14] == 'c' && PERMISSION_MAP[3].new_[14] == 'u';
  }

  const CARGO_CODES := ["cargo.read", "cargo.read_all", "cargo.create", "cargo.update", "cargo.receive"]

  lemma OldCodes()
    ensures forall i :: 0 <= i < 5 ==> PERMISSION_MAP[i].old_ == "travelwiz." + CARGO_CODES[i]
  {
  }

  lemma NewCodes()
    ensures forall i :: 0 <= i < 5 ==> PERMISSION_MAP[i].new_ == "packlog." + CARGO_CODES[i]
  {
  }

  /** Each pair moves one cargo code from travelwiz to packlog. */
  lemma PairsKeepTheirSuffix(i: nat)
    requires i < |PERMISSION_MAP|
    ensures PERMISSION_MAP[i].old_[10..] == PERMISSION_MAP[i].new_[8..] == CARGO_CODES[i]
    ensures PERMISSION_MAP[i].old_[..10] == "travelwiz." && PERMISSION_MAP[i].new_[..8] == "packlog."
  {
    OldCodes();
    NewCodes();
  }
}
