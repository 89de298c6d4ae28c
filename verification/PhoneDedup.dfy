/** The migration that collapses duplicate phone rows before making
    (owner_type, owner_id, number) unique. */
module PhoneDedup {
  import opened Wrappers

  datatype Key = Key(ownerType: string, ownerId: nat, number: string)

  /** `other` stands for the columns the migration does not touch. */
  datatype Phone = Phone(key: Key, createdAt: Option<int>, verified: bool, verifiedAt: Option<int>, other: string)

  /** The table, by primary key. */
  type Rows = map<nat, Phone>

  /** ORDER BY created_at ASC, id ASC: nulls last, and ids break ties. */
  predicate Precedes(t: Rows, i: nat, j: nat)
    requires i in t && j in t
  {
    var (a, b) := (t[i].createdAt, t[j].createdAt);
    if a.None? && b.None? then i < j
    else if a.None? then false
    else if b.None? then true
    else a.value < b.value || (a.value == b.value && i < j)
  }

  predicate SameGroup(t: Rows, i: nat, j: nat)
    requires i in t && j in t
  {
    t[i].key == t[j].key
  }

  /** The row an ORDER BY .. LIMIT 1 over the group of row i returns. */
  predicate First(t: Rows, i: nat)
    requires i in t
  {
    forall j :: j in t && SameGroup(t, i, j) && j != i ==> Precedes(t, i, j)
  }

  /** ROW_NUMBER() OVER (PARTITION BY the key ORDER BY created_at, id). */
  function RowNumber(t: Rows, i: nat): nat
    requires i in t
  {
    |set j | j in t && SameGroup(t, i, j) && Precedes(t, j, i)| + 1
  }

  predicate GroupVerified(t: Rows, i: nat)
    requires i in t
  {
    exists d :: d in t && SameGroup(t, i, d) && t[d].verified
  }

  predicate UniqueKeys(t: Rows) {
    forall i, j :: i in t && j in t && i != j ==> t[i].key != t[j].key
  }

  /** What merging makes of the rows t. */
  ghost predicate MergesVerified(t: Rows, r: Rows, now: int) {
    r.Keys == t.Keys && forall i :: i in t ==> RowMerges(t, r, i, now)
  }

  predicate RowMerges(t: Rows, r: Rows, i: nat, now: int)
    requires i in t && r.Keys == t.Keys
  {
    && (First(r, i) <==> First(t, i))
    && (if First(t, i) then (r[i].verified <==> GroupVerified(t, i)) && OnlyVerifies(t[i], r[i], now) else r[i] == t[i])
  }

  /** b is a, perhaps newly verified: with its date of verification if it had one, else
      now. */
  predicate OnlyVerifies(a: Phone, b: Phone, now: int) {
    var date := if a.verifiedAt.Some? then a.verifiedAt.value else now;
    b == a || (!a.verified && b == a.(verified := true, verifiedAt := Some(date)))
  }

  // ----- the statements -----

  function Merged(t: Rows, now: int): Rows {
    map i | i in t ::
      if !t[i].verified && GroupVerified(t, i) && First(t, i)
      then t[i].(verified := true, verifiedAt := if t[i].verifiedAt.Some? then t[i].verifiedAt else Some(now))
      else t[i]
  }

  function Deduplicated(t: Rows): Rows {
    map i | i in t && !(RowNumber(t, i) > 1) :: t[i]
  }

  function Migrated(t: Rows, now: int): Rows {
    Deduplicated(Merged(t, now))
  }

  class PhoneTable {
    var rows: Rows

    constructor (rows: Rows)
      ensures this.rows == rows
    {
      this.rows := rows;
    }

    /** UPDATE: the first row of each group ends verified exactly when some row of the group
        was; no other row changes, no row changes but in its verified state, and who is first
        is as before. */
    method MergeVerified(now: int)
      modifies this
      ensures rows == Merged(old(rows), now) && MergesVerified(old(rows), rows, now)
    {
      var snapshot := rows;
      var hits := set i | i in snapshot && !snapshot[i].verified && GroupVerified(snapshot, i) && First(snapshot, i);
      rows := map i | i in snapshot :: if i in hits
        then snapshot[i].(verified := true,
                          verifiedAt := if snapshot[i].verifiedAt.Some? then snapshot[i].verifiedAt else Some(now))
        else snapshot[i];
      assert rows == Merged(snapshot, now);
      MergedVerifies(snapshot, now);
    }

    /** DELETE: every row that is not its group's first. */
    method DeleteDuplicates()
      modifies this
      ensures rows == Deduplicated(old(rows))
    {
      var snapshot := rows;
      var doomed := set i | i in snapshot && RowNumber(snapshot, i) > 1;
      rows := map i | i in snapshot && i !in doomed :: snapshot[i];
    }

    /** ADD CONSTRAINT UNIQUE: refused when two rows share a key. */
    method AddUniqueConstraint() returns (ok: bool)
      ensures ok <==> UniqueKeys(rows)
    {
      ok := UniqueKeys(rows);
    }

    /** upgrade: never refused; leaves exactly the first row of every group, with its
        group's verified state and its other columns. */
    method Upgrade(now: int) returns (ok: bool)
      modifies this
      ensures ok && rows == Migrated(old(rows), now)
      ensures KeepsOldest(old(rows), rows, now) && OneRowPerKey(old(rows), rows)
    {
      ghost var t := rows;
      MergeVerified(now);
      DeleteDuplicates();
      FirstsKept(t, now);
      KeysKept(t, now);
      ok := AddUniqueConstraint();
    }
  }

  // ----- survivors -----

  lemma PrecedesIsTotal(t: Rows, i: nat, j: nat, k: nat)
    requires i in t && j in t && k in t
    ensures i != j ==> (Precedes(t, i, j) <==> !Precedes(t, j, i))
    ensures Precedes(t, i, j) && Precedes(t, j, k) ==> Precedes(t, i, k)
  {
  }

  /** Row number one is the row LIMIT 1 returns. */
  lemma RowNumberOne(t: Rows, i: nat)
    requires i in t
    ensures !(RowNumber(t, i) > 1) <==> First(t, i)
  {
    var ahead := set j | j in t && SameGroup(t, i, j) && Precedes(t, j, i);
    if First(t, i) {
      forall j | j in ahead ensures false {
        PrecedesIsTotal(t, i, j, i);
      }
      assert ahead == {};
    } else {
      var j :| j in t && SameGroup(t, i, j) && j != i && !Precedes(t, i, j);
      PrecedesIsTotal(t, i, j, i);
      assert j in ahead;
    }
  }

  /** Among the rows of S there is one that precedes all the others. */
  lemma {:induction false} OldestExists(t: Rows, S: set<nat>) returns (i: nat)
    requires S != {} && forall j :: j in S ==> j in t
    ensures i in S && forall j :: j in S && j != i ==> Precedes(t, i, j)
    decreases |S|
  {
    var x :| x in S;
    if S == {x} {
      i := x;
    } else {
      assert S - {x} != {} by { assert S == (S - {x}) + {x}; }
      var k := OldestExists(t, S - {x});
      PrecedesIsTotal(t, x, k, x);
      i := if Precedes(t, x, k) then x else k;
      forall j | j in S && j != i ensures Precedes(t, i, j) {
        PrecedesIsTotal(t, x, k, j);
      }
    }
  }

  lemma GroupHasFirst(t: Rows, j: nat) returns (i: nat)
    requires j in t
    ensures i in t && SameGroup(t, i, j) && First(t, i)
  {
    var group := set k | k in t && SameGroup(t, k, j);
    assert j in group;
    i := OldestExists(t, group);
  }

  /** Merging moves no row and changes no order, so both statements pick the same
      survivor. */
  lemma MergeKeepsOrder(t: Rows, now: int, i: nat)
    requires i in t
    ensures i in Merged(t, now)
    ensures First(Merged(t, now), i) <==> First(t, i)
  {
    var m := Merged(t, now);
    assert forall j :: j in t ==> m[j].key == t[j].key && m[j].createdAt == t[j].createdAt;
    assert forall j :: j in t ==> (SameGroup(m, i, j) <==> SameGroup(t, i, j));
    assert forall j :: j in t ==> (Precedes(m, i, j) <==> Precedes(t, i, j));
  }

  lemma MergedVerifies(t: Rows, now: int)
    ensures MergesVerified(t, Merged(t, now), now)
  {
    forall i | i in t ensures RowMerges(t, Merged(t, now), i, now) {
      MergeKeepsOrder(t, now, i);
      if t[i].verified { assert SameGroup(t, i, i); }
    }
  }

  lemma SurvivorsAreFirst(t: Rows, now: int, i: nat)
    ensures i in Migrated(t, now) <==> i in t && First(t, i)
  {
    if i in t {
      RowNumberOne(Merged(t, now), i);
      MergeKeepsOrder(t, now, i);
    }
  }

  lemma FirstIsUnique(t: Rows, i: nat, j: nat)
    requires i in t && j in t && First(t, i) && First(t, j) && SameGroup(t, i, j)
    ensures i == j
  {
    if i != j {
      PrecedesIsTotal(t, i, j, i);
    }
  }

  /** What a survivor looks like after both statements. */
  predicate Survives(t: Rows, i: nat, after: Phone)
    requires i in t
  {
    && after == t[i].(verified := after.verified, verifiedAt := after.verifiedAt)
    && (after.verified <==> GroupVerified(t, i))
    && (t[i].verified ==> after == t[i])
  }

  lemma SurvivorContents(t: Rows, now: int, i: nat)
    requires i in Migrated(t, now)
    ensures i in t && Survives(t, i, Migrated(t, now)[i])
  {
    SurvivorsAreFirst(t, now, i);
    assert t[i].verified ==> GroupVerified(t, i) by { assert SameGroup(t, i, i); }
  }

  lemma EveryKeySurvives(t: Rows, now: int, j: nat) returns (i: nat)
    requires j in t
    ensures i in Migrated(t, now) && Migrated(t, now)[i].key == t[j].key
  {
    i := GroupHasFirst(t, j);
    SurvivorsAreFirst(t, now, i);
    SurvivorContents(t, now, i);
  }

  lemma SurvivingKeysDiffer(t: Rows, now: int, i: nat, j: nat)
    requires i in Migrated(t, now) && j in Migrated(t, now) && i != j
    ensures Migrated(t, now)[i].key != Migrated(t, now)[j].key
  {
    SurvivorsAreFirst(t, now, i);
    SurvivorsAreFirst(t, now, j);
    SurvivorContents(t, now, i);
    SurvivorContents(t, now, j);
    if t[i].key == t[j].key { FirstIsUnique(t, i, j); }
  }

  /** No other row of t with i's key is older: created at an earlier time, a missing time
      counting as the latest, or at the same time under a smaller id. */
  ghost predicate Oldest(t: Rows, i: nat)
    requires i in t
  {
    forall j :: j in t && j != i && t[j].key == t[i].key ==>
      if t[i].createdAt == t[j].createdAt then i < j
      else t[i].createdAt.Some? && (t[j].createdAt.Some? ==> t[i].createdAt.value < t[j].createdAt.value)
  }

  /** r holds exactly the oldest row of each key of t, verified exactly when some row with
      the key was, and otherwise as it was; a row newly verified keeps its date of
      verification, or gets the present one if it had none. */
  ghost predicate KeepsOldest(t: Rows, r: Rows, now: int) {
    && (forall i :: i in r <==> i in t && Oldest(t, i))
    && (forall i :: i in r ==>
          && i in t && r[i].key == t[i].key && r[i].createdAt == t[i].createdAt && r[i].other == t[i].other
          && (r[i].verified <==> exists d :: d in t && t[d].key == t[i].key && t[d].verified)
          && r[i].verifiedAt == (if r[i].verified && !t[i].verified && t[i].verifiedAt.None? then Some(now)
                                 else t[i].verifiedAt))
  }

  /** r holds exactly one row for every key of t. */
  ghost predicate OneRowPerKey(t: Rows, r: Rows) {
    && (forall j :: j in t ==> exists i :: i in r && r[i].key == t[j].key)
    && UniqueKeys(r)
  }

  lemma FirstIsOldest(t: Rows, i: nat)
    requires i in t
    ensures First(t, i) <==> Oldest(t, i)
  {
    forall j | j in t && j != i && t[j].key == t[i].key
      ensures Precedes(t, i, j) <==>
              if t[i].createdAt == t[j].createdAt then i < j
              else t[i].createdAt.Some? && (t[j].createdAt.Some? ==> t[i].createdAt.value < t[j].createdAt.value)
    {
    }
  }

  lemma FirstsKept(t: Rows, now: int)
    ensures KeepsOldest(t, Migrated(t, now), now)
  {
    var r := Migrated(t, now);
    forall i ensures i in r <==> i in t && Oldest(t, i) {
      SurvivorsAreFirst(t, now, i);
      if i in t { FirstIsOldest(t, i); }
    }
    forall i | i in r ensures i in t && Survives(t, i, r[i]) {
      SurvivorContents(t, now, i);
    }
    forall i | i in r
      ensures r[i].verifiedAt == if r[i].verified && !t[i].verified && t[i].verifiedAt.None? then Some(now)
                                 else t[i].verifiedAt
    {
      SurvivorsAreFirst(t, now, i);
    }
  }

  lemma KeysKept(t: Rows, now: int)
    ensures OneRowPerKey(t, Migrated(t, now))
  {
    var r := Migrated(t, now);
    forall j | j in t ensures exists i :: i in r && r[i].key == t[j].key {
      var i := EveryKeySurvives(t, now, j);
    }
    forall i, j | i in r && j in r && i != j ensures r[i].key != r[j].key {
      SurvivingKeysDiffer(t, now, i, j);
    }
  }

  lemma SurvivorStays(t: Rows, now: int, later: int, i: nat)
    requires i in Migrated(t, now)
    ensures i in Migrated(Migrated(t, now), later) && Migrated(Migrated(t, now), later)[i] == Migrated(t, now)[i]
  {
    var r := Migrated(t, now);
    forall j | j in r && SameGroup(r, i, j) ensures j == i {
      if j != i { SurvivingKeysDiffer(t, now, i, j); }
    }
    SurvivorsAreFirst(r, later, i);
    SurvivorContents(r, later, i);
  }

  /** Running the migration again, at any later time, changes nothing. */
  lemma MigratingTwice(t: Rows, now: int, later: int)
    ensures Migrated(Migrated(t, now), later) == Migrated(t, now)
  {
    var r := Migrated(t, now);
    forall i | i in r ensures i in Migrated(r, later) && Migrated(r, later)[i] == r[i] {
      SurvivorStays(t, now, later, i);
    }
    forall i | i in Migrated(r, later) ensures i in r {
      SurvivorsAreFirst(r, later, i);
    }
  }
}
