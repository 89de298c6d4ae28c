/** The migration that replaces pax_profiles by references to users and contacts.

    LOWER(TRIM(..)) is a function `norm` on names, fixed but arbitrary.  An UPDATE .. FROM
    that finds several matching contacts takes any one of them, row by row. */
module PaxIdentity {
  import opened Wrappers

  datatype Profile = Profile(userId: Option<nat>, companyId: Option<nat>, firstName: string, lastName: string)

  datatype Contact = Contact(tierId: nat, firstName: string, lastName: string)

  /** The two tables rows are resolved against. */
  datatype People = People(profiles: map<nat, Profile>, contacts: map<nat, Contact>, norm: string -> string)

  /** A child row: what its old unique key had beside pax_id, the old reference, and the
      two columns added by the migration. */
  datatype Child = Child(scope: nat, paxId: Option<nat>, userId: Option<nat>, contactId: Option<nat>)

  type Rows = map<nat, Child>

  datatype Table =
    | PaxCredentials | AdsPax | PaxIncidents | MissionProgramPax
    | PaxRotationCycles | StayPrograms | PaxProfileTypes | ManifestPassengers

  const CHILD_TABLES :=
      [PaxCredentials, AdsPax, PaxIncidents, MissionProgramPax, PaxRotationCycles, StayPrograms, PaxProfileTypes]

  /** Tables that get the two new unique constraints. */
  const UNIQUE_TABLES := [PaxCredentials, AdsPax, MissionProgramPax, PaxProfileTypes]

  /** Tables whose rows may name nobody. */
  predicate NobodyAllowed(table: Table) {
    table == PaxIncidents || table == ManifestPassengers
  }

  // ----- resolution -----

  predicate HasProfile(w: People, r: Child) {
    r.paxId.Some? && r.paxId.value in w.profiles
  }

  /** The join of a profile with tier_contacts. */
  predicate Matches(w: People, p: Profile, c: nat) {
    && c in w.contacts
    && p.companyId == Some(w.contacts[c].tierId)
    && w.norm(w.contacts[c].firstName) == w.norm(p.firstName)
    && w.norm(w.contacts[c].lastName) == w.norm(p.lastName)
  }

  /** The contacts a row without a user may be given. */
  function Candidates(w: People, r: Child): set<nat> {
    if HasProfile(w, r) && w.profiles[r.paxId.value].userId.None?
    then set c | c in w.contacts && Matches(w, w.profiles[r.paxId.value], c)
    else {}
  }

  function UserOf(w: People, r: Child): Option<nat> {
    if HasProfile(w, r) then w.profiles[r.paxId.value].userId else None
  }

  /** The row's profile has a user or a name-and-company match. */
  predicate Resolvable(w: People, r: Child) {
    UserOf(w, r).Some? || Candidates(w, r) != {}
  }

  /** What the backfill may make of a row whose new columns are null. */
  predicate RowBackfilled(w: People, before: Child, after: Child) {
    && after.scope == before.scope && after.paxId == before.paxId
    && after.userId == UserOf(w, before)
    && (if Candidates(w, before) == {} then after.contactId == None
        else after.contactId.Some? && after.contactId.value in Candidates(w, before))
  }

  /** What it may make of a table. */
  predicate Backfilled(w: People, before: Rows, after: Rows) {
    && after.Keys == before.Keys
    && forall i :: i in before ==> RowBackfilled(w, before[i], after[i])
  }

  predicate NewColumnsNull(rows: Rows) {
    forall i :: i in rows ==> rows[i].userId == None && rows[i].contactId == None
  }

  // ----- the migration -----

  function SetUsers(w: People, rows: Rows): Rows {
    map i | i in rows :: if UserOf(w, rows[i]).Some? then rows[i].(userId := UserOf(w, rows[i])) else rows[i]
  }

  predicate XorHolds(table: Table, rows: Rows) {
    forall i :: i in rows ==>
      !(rows[i].userId.Some? && rows[i].contactId.Some?)
      && (NobodyAllowed(table) || rows[i].userId.Some? || rows[i].contactId.Some?)
  }

  predicate UniqueUsers(rows: Rows) {
    forall i, j :: i in rows && j in rows && i != j && rows[i].userId.Some? && rows[i].scope == rows[j].scope ==>
      rows[i].userId != rows[j].userId
  }

  predicate UniqueContacts(rows: Rows) {
    forall i, j :: i in rows && j in rows && i != j && rows[i].contactId.Some? && rows[i].scope == rows[j].scope ==>
      rows[i].contactId != rows[j].contactId
  }

  class PaxTables {
    const people: People
    var tables: map<Table, Rows>

    constructor (people: People, tables: map<Table, Rows>)
      ensures this.people == people && this.tables == tables
    {
      this.people := people;
      this.tables := tables;
    }

    predicate AllPresent()
      reads this
    {
      forall n: Table :: n in tables
    }

    /** 4c: each row whose profile has a user gets that user. */
    method BackfillUsers(name: Table)
      requires name in tables
      modifies this
      ensures tables == old(tables)[name := SetUsers(people, old(tables)[name])]
    {
      var rows := tables[name];
      var hits := map i | i in rows && HasProfile(people, rows[i]) &&
          people.profiles[rows[i].paxId.value].userId.Some? ::
        rows[i].(userId := people.profiles[rows[i].paxId.value].userId);
      assert rows + hits == SetUsers(people, rows);
      tables := tables[name := rows + hits];
    }

    /** 4d: each row that still has no user, and whose profile has none, gets a contact that
        matches the profile by company and name, if there is one. */
    method BackfillContacts(name: Table)
      requires name in tables
      modifies this
      ensures name in tables && tables == old(tables)[name := tables[name]]
      ensures ContactsSet(people, old(tables)[name], tables[name])
    {
      var rows := tables[name];
      var done: Rows := map[];
      var todo := rows.Keys;
      while todo != {}
        invariant todo <= rows.Keys && done.Keys == rows.Keys - todo
        invariant forall i :: i in done ==> RowContactSet(people, rows[i], done[i])
        decreases |todo|
      {
        var i :| i in todo;
        var row := rows[i];
        if row.userId.None? && Candidates(people, row) != {} {
          var c :| c in Candidates(people, row);
          row := row.(contactId := Some(c));
        }
        done := done[i := row];
        todo := todo - {i};
      }
      tables := tables[name := done];
    }

    /** Steps 4c to 7: the user pass over every child table, then the contact pass, then
        the manifest, then the checks; the migration aborts if a check fails. */
    method Upgrade() returns (ok: bool)
      requires AllPresent() && forall n: Table :: NewColumnsNull(tables[n])
      modifies this
      ensures AllPresent()
      ensures forall n: Table :: Backfilled(people, old(tables)[n], tables[n])
      ensures forall n: Table :: EveryoneNamed(people, old(tables)[n], tables[n])
      ensures ok <==> ConstraintsHold(tables)
      ensures ok <==> (forall n: Table :: XorHolds(n, tables[n]))
                      && (forall n :: n in UNIQUE_TABLES ==> UniqueUsers(tables[n]) && UniqueContacts(tables[n]))
    {
      ghost var t0 := tables;
      for k := 0 to |CHILD_TABLES|
        invariant AllPresent()
        invariant forall n: Table :: tables[n] == if n in CHILD_TABLES[..k] then SetUsers(people, t0[n]) else t0[n]
      {
        TableAt(k);
        BackfillUsers(CHILD_TABLES[k]);
      }
      ghost var t1 := tables;
      for k := 0 to |CHILD_TABLES|
        invariant AllPresent()
        invariant forall n: Table :: if n in CHILD_TABLES[..k] then ContactsSet(people, t1[n], tables[n])
          else tables[n] == t1[n]
      {
        TableAt(k);
        BackfillContacts(CHILD_TABLES[k]);
      }
      BackfillUsers(ManifestPassengers);
      BackfillContacts(ManifestPassengers);
      EveryTable();
      forall n: Table ensures Backfilled(people, t0[n], tables[n]) {
        PassesBackfill(people, t0[n], tables[n]);
      }
      forall n: Table ensures EveryoneNamed(people, t0[n], tables[n]) {
        BackfillNames(people, t0[n], tables[n]);
      }
      ok := (forall n: Table :: XorHolds(n, tables[n]))
            && (forall n :: n in UNIQUE_TABLES ==> UniqueUsers(tables[n]) && UniqueContacts(tables[n]));
      ChecksAreConstraints(tables);
    }
  }

  // ----- what the migration does, row by row -----

  /** The contact stands for the profile: same company, same first and last name but for
      case and outer blanks. */
  ghost predicate StandsFor(w: People, c: Contact, p: Profile) {
    && p.companyId == Some(c.tierId)
    && w.norm(c.firstName) == w.norm(p.firstName) && w.norm(c.lastName) == w.norm(p.lastName)
  }

  /** A row of no profile names nobody; a row of a profile with a user names that user; any
      other row names a contact that stands for its profile, or nobody if there is none. */
  ghost predicate Named(w: People, before: Child, after: Child) {
    && after.scope == before.scope && after.paxId == before.paxId
    && (if before.paxId.None? || before.paxId.value !in w.profiles then after.userId == None && after.contactId == None
        else
          var p := w.profiles[before.paxId.value];
          && after.userId == p.userId
          && (p.userId.Some? ==> after.contactId == None)
          && (p.userId.None? && after.contactId.None? ==>
                forall c :: c in w.contacts ==> !StandsFor(w, w.contacts[c], p))
          && (after.contactId.Some? ==>
                after.contactId.value in w.contacts && StandsFor(w, w.contacts[after.contactId.value], p)))
  }

  ghost predicate EveryoneNamed(w: People, before: Rows, after: Rows) {
    after.Keys == before.Keys && forall i :: i in before ==> Named(w, before[i], after[i])
  }

  lemma BackfillNames(w: People, before: Rows, after: Rows)
    requires Backfilled(w, before, after)
    ensures EveryoneNamed(w, before, after)
  {
    forall i | i in before ensures Named(w, before[i], after[i]) {
      RowNames(w, before[i], after[i]);
    }
  }

  lemma RowNames(w: People, before: Child, after: Child)
    requires RowBackfilled(w, before, after)
    ensures Named(w, before, after)
  {
    if HasProfile(w, before) && w.profiles[before.paxId.value].userId.None? {
      var p := w.profiles[before.paxId.value];
      forall c ensures c in Candidates(w, before) <==> c in w.contacts && StandsFor(w, w.contacts[c], p) {
        assert Matches(w, p, c) <==> c in w.contacts && StandsFor(w, w.contacts[c], p);
      }
    }
  }

  /** The constraints of steps 6 and 7: no row names both a user and a contact, and only
      incidents and manifest passengers may name nobody; in the four tables that had a
      pax-based unique constraint no user and no contact occurs twice in one scope. */
  ghost predicate ConstraintsHold(tables: map<Table, Rows>)
    requires forall n: Table :: n in tables
  {
    && (forall n: Table, i :: i in tables[n] ==> tables[n][i].userId.None? || tables[n][i].contactId.None?)
    && (forall n: Table, i :: i in tables[n] && tables[n][i].userId.None? && tables[n][i].contactId.None? ==>
          n.PaxIncidents? || n.ManifestPassengers?)
    && NoneTwice(tables[PaxCredentials]) && NoneTwice(tables[AdsPax]) && NoneTwice(tables[MissionProgramPax])
    && NoneTwice(tables[PaxProfileTypes])
  }

  ghost predicate NoneTwice(rows: Rows) {
    forall i, j :: i in rows && j in rows && i != j && rows[i].scope == rows[j].scope ==>
      && (rows[i].userId.None? || rows[i].userId != rows[j].userId)
      && (rows[i].contactId.None? || rows[i].contactId != rows[j].contactId)
  }

  lemma ChecksAreConstraints(tables: map<Table, Rows>)
    requires forall n: Table :: n in tables
    ensures ConstraintsHold(tables)
            <==> (forall n: Table :: XorHolds(n, tables[n]))
                 && (forall n :: n in UNIQUE_TABLES ==> UniqueUsers(tables[n]) && UniqueContacts(tables[n]))
  {
    assert UNIQUE_TABLES[0] == PaxCredentials && UNIQUE_TABLES[1] == AdsPax
      && UNIQUE_TABLES[2] == MissionProgramPax && UNIQUE_TABLES[3] == PaxProfileTypes;
    assert forall rows :: NoneTwice(rows) <==> UniqueUsers(rows) && UniqueContacts(rows);
  }

  /** What 4d may make of one row, and of a table. */
  predicate RowContactSet(w: People, b: Child, a: Child) {
    if b.userId.None? && Candidates(w, b) != {}
    then a.contactId.Some? && a.contactId.value in Candidates(w, b) && a == b.(contactId := a.contactId)
    else a == b
  }

  predicate ContactsSet(w: People, before: Rows, after: Rows) {
    before.Keys == after.Keys && forall i :: i in before ==> RowContactSet(w, before[i], after[i])
  }

  lemma TableAt(k: nat)
    requires k < |CHILD_TABLES|
    ensures CHILD_TABLES[k] !in CHILD_TABLES[..k]
    ensures forall n :: n in CHILD_TABLES[..k + 1] <==> (n in CHILD_TABLES[..k] || n == CHILD_TABLES[k])
  {
    assert CHILD_TABLES[..k + 1] == CHILD_TABLES[..k] + [CHILD_TABLES[k]];
  }

  lemma EveryTable()
    ensures CHILD_TABLES[..|CHILD_TABLES|] == CHILD_TABLES
    ensures forall n: Table :: n in CHILD_TABLES <==> n != ManifestPassengers
  {
    assert CHILD_TABLES[0] == PaxCredentials && CHILD_TABLES[1] == AdsPax && CHILD_TABLES[2] == PaxIncidents
      && CHILD_TABLES[3] == MissionProgramPax && CHILD_TABLES[4] == PaxRotationCycles
      && CHILD_TABLES[5] == StayPrograms && CHILD_TABLES[6] == PaxProfileTypes;
  }

  /** The user pass and then the contact pass backfill a table. */
  lemma PassesBackfill(w: People, before: Rows, after: Rows)
    requires NewColumnsNull(before) && ContactsSet(w, SetUsers(w, before), after)
    ensures Backfilled(w, before, after)
  {
    forall i | i in before ensures RowBackfilled(w, before[i], after[i]) {
      var mid := SetUsers(w, before)[i];
      assert Candidates(w, mid) == Candidates(w, before[i]);
    }
  }

  // ----- what the checks amount to -----

  /** After the backfill no row has both a user and a contact, and one is set exactly when
      the row's profile has a user or a name-and-company match. */
  lemma ExactlyOneWhenResolvable(w: People, before: Rows, after: Rows, i: nat)
    requires Backfilled(w, before, after) && i in after
    ensures !(after[i].userId.Some? && after[i].contactId.Some?)
    ensures after[i].userId.Some? || after[i].contactId.Some? <==> Resolvable(w, before[i])
  {
    assert RowBackfilled(w, before[i], after[i]);
  }

  /** A table passes its check exactly when it allows rows that name nobody, or every row
      can be resolved. */
  lemma XorCheckExactly(w: People, table: Table, before: Rows, after: Rows)
    requires Backfilled(w, before, after)
    ensures XorHolds(table, after) <==> NobodyAllowed(table) || forall i :: i in before ==> Resolvable(w, before[i])
  {
    forall i | i in after
      ensures !(after[i].userId.Some? && after[i].contactId.Some?)
      ensures after[i].userId.Some? || after[i].contactId.Some? <==> Resolvable(w, before[i])
    {
      ExactlyOneWhenResolvable(w, before, after, i);
    }
  }

  /** Two rows of one scope whose profiles have the same user. */
  predicate UsersClash(w: People, before: Rows) {
    exists i, j :: i in before && j in before && i != j && before[i].scope == before[j].scope
      && UserOf(w, before[i]).Some? && UserOf(w, before[i]) == UserOf(w, before[j])
  }

  /** Two rows of one scope that may be given the same contact. */
  predicate ContactsMayClash(w: People, before: Rows) {
    exists i, j :: i in before && j in before && i != j && before[i].scope == before[j].scope
      && Candidates(w, before[i]) * Candidates(w, before[j]) != {}
  }

  lemma UniqueUsersExactly(w: People, before: Rows, after: Rows)
    requires Backfilled(w, before, after)
    ensures UniqueUsers(after) <==> !UsersClash(w, before)
  {
    assert forall i :: i in before ==> RowBackfilled(w, before[i], after[i]);
    if UsersClash(w, before) {
      var i, j :| i in before && j in before && i != j && before[i].scope == before[j].scope
        && UserOf(w, before[i]).Some? && UserOf(w, before[i]) == UserOf(w, before[j]);
      assert after[i].userId == after[j].userId;
    }
  }

  /** Whatever contacts the backfill picks, they satisfy the new contact constraint --
      exactly when no two rows of one scope have a candidate in common. */
  lemma UniqueContactsExactly(w: People, before: Rows)
    requires NewColumnsNull(before)
    ensures (forall after :: Backfilled(w, before, after) ==> UniqueContacts(after)) <==> !ContactsMayClash(w, before)
  {
    if ContactsMayClash(w, before) {
      var i, j :| i in before && j in before && i != j && before[i].scope == before[j].scope
        && Candidates(w, before[i]) * Candidates(w, before[j]) != {};
      var c :| c in Candidates(w, before[i]) * Candidates(w, before[j]);
      var after := BackfillWith(w, before, c);
      assert after[i].contactId == Some(c) && after[j].contactId == Some(c);
      assert !UniqueContacts(after);
    } else {
      forall after | Backfilled(w, before, after) ensures UniqueContacts(after) {
        ContactsDiffer(w, before, after);
      }
    }
  }

  lemma ContactsDiffer(w: People, before: Rows, after: Rows)
    requires Backfilled(w, before, after) && !ContactsMayClash(w, before)
    ensures UniqueContacts(after)
  {
    forall i, j | i in after && j in after && i != j && after[i].contactId.Some? && after[i].scope == after[j].scope
      ensures after[i].contactId != after[j].contactId
    {
      assert RowBackfilled(w, before[i], after[i]) && RowBackfilled(w, before[j], after[j]);
      assert after[i].contactId.value !in Candidates(w, before[i]) * Candidates(w, before[j]);
    }
  }

  /** An outcome that picks contact c wherever it may. */
  lemma BackfillWith(w: People, before: Rows, c: nat) returns (after: Rows)
    requires NewColumnsNull(before)
    ensures Backfilled(w, before, after)
    ensures forall i :: i in before && c in Candidates(w, before[i]) ==> after[i].contactId == Some(c)
  {
    after := map i | i in before ::
      before[i].(userId := UserOf(w, before[i]), contactId := Pick(Candidates(w, before[i]), c));
  }

  ghost function Pick(s: set<nat>, c: nat): (r: Option<nat>)
    ensures if s == {} then r == None else r.Some? && r.value in s
    ensures c in s ==> r == Some(c)
  {
    if s == {} then None
    else if c in s then Some(c)
    else
      var x :| x in s;
      Some(x)
  }

  // ----- injective resolution -----

  /** Two profiles that may stand for one person: they share a user, or neither has a user
      and some contact matches both. */
  predicate SamePerson(w: People, p: Profile, q: Profile) {
    || (p.userId.Some? && p.userId == q.userId)
    || (p.userId.None? && q.userId.None? && exists c :: c in w.contacts && Matches(w, p, c) && Matches(w, q, c))
  }

  predicate Injective(w: People) {
    forall x, y :: x in w.profiles && y in w.profiles && x != y ==> !SamePerson(w, w.profiles[x], w.profiles[y])
  }

  predicate OldUnique(before: Rows) {
    forall i, j ::
      i in before && j in before && i != j && before[i].paxId.Some? && before[i].scope == before[j].scope ==>
      before[i].paxId != before[j].paxId
  }

  /** If resolution is injective, the old pax-based uniqueness becomes the new uniqueness
      of users and of contacts, whichever contacts are picked. */
  lemma UniquenessCarriesOver(w: People, before: Rows, after: Rows)
    requires Backfilled(w, before, after) && Injective(w) && OldUnique(before)
    ensures UniqueUsers(after) && UniqueContacts(after)
  {
    forall i, j | i in before && j in before && i != j && before[i].scope == before[j].scope
      ensures !(UserOf(w, before[i]).Some? && UserOf(w, before[i]) == UserOf(w, before[j]))
      ensures Candidates(w, before[i]) * Candidates(w, before[j]) == {}
    {
      RowsOfDifferentPeople(w, before[i], before[j]);
    }
    UniqueUsersExactly(w, before, after);
    ContactsDiffer(w, before, after);
  }

  lemma RowsOfDifferentPeople(w: People, r: Child, s: Child)
    requires Injective(w) && (r.paxId.Some? ==> r.paxId != s.paxId)
    ensures !(UserOf(w, r).Some? && UserOf(w, r) == UserOf(w, s))
    ensures Candidates(w, r) * Candidates(w, s) == {}
  {
    if c :| c in Candidates(w, r) * Candidates(w, s) {
      assert SamePerson(w, w.profiles[r.paxId.value], w.profiles[s.paxId.value]);
    }
  }
}
