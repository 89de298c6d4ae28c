/** The second half of migration 119: workflow definitions move from the old cargo slug to
    the new one, and their instances with them. */
module WorkflowSlugRename {
  /** travelwiz-cargo-workflow, packlog-cargo-workflow, or any other slug. */
  datatype Slug = OldSlug | NewSlug | OtherSlug(text: string)

  datatype Definition = Definition(entity: nat, slug: Slug)

  type Definitions = map<nat, Definition>

  /** Instances by id, each naming its definition. */
  type Instances = map<nat, nat>

  predicate ForeignKeys(ds: Definitions, ns: Instances) {
    forall x :: x in ns ==> ns[x] in ds
  }

  /** The new definitions of an old definition's entity. */
  function Successors(ds: Definitions, d: nat): set<nat>
    requires d in ds
  {
    set n | n in ds && ds[n].slug == NewSlug && ds[n].entity == ds[d].entity
  }

  predicate Superseded(ds: Definitions, d: nat)
    requires d in ds
  {
    ds[d].slug == OldSlug && Successors(ds, d) != {}
  }

  /** Definition d has the old slug, and its entity has a definition with the new one. */
  ghost predicate HasNew(ds: Definitions, d: nat)
    requires d in ds
  {
    ds[d].slug == OldSlug && exists n :: n in ds && ds[n].entity == ds[d].entity && ds[n].slug == NewSlug
  }

  lemma SupersededHasNew(ds: Definitions)
    ensures forall d :: d in ds ==> (Superseded(ds, d) <==> HasNew(ds, d))
  {
    forall d | d in ds ensures Superseded(ds, d) <==> HasNew(ds, d) {
      assert forall n :: n in ds && ds[n].entity == ds[d].entity && ds[n].slug == NewSlug ==> n in Successors(ds, d);
    }
  }

  /** Each entity has at most one definition with the new slug. */
  predicate OneNewPerEntity(ds: Definitions) {
    forall c, d :: c in ds && d in ds && c != d && ds[c].slug == NewSlug && ds[d].slug == NewSlug ==>
        ds[c].entity != ds[d].entity
  }

  /** Two definitions of one entity with the new slug, or two with the old one and none
      with the new. */
  predicate Doubled(ds: Definitions, c: nat, d: nat)
    requires c in ds && d in ds
  {
    && c != d && ds[c].entity == ds[d].entity && ds[c].slug == ds[d].slug
    && (ds[c].slug == NewSlug || (ds[c].slug == OldSlug && Successors(ds, c) == {}))
  }

  predicate Survives(ds: Definitions, d: nat)
    requires d in ds
  {
    !Superseded(ds, d)
  }

  function Surviving(ds: Definitions): Definitions {
    map d | d in ds && Survives(ds, d) :: ds[d]
  }

  function Renamed(ds: Definitions): Definitions {
    map d | d in ds && Survives(ds, d) :: if ds[d].slug == OldSlug then ds[d].(slug := NewSlug) else ds[d]
  }

  class WorkflowTables {
    var definitions: Definitions
    var instances: Instances

    /** UPDATE workflow_instances: instances of a superseded definition move to a successor;
        when there are several, to any one of them. */
    method MoveInstances()
      requires ForeignKeys(definitions, instances)
      modifies this`instances
      ensures instances.Keys == old(instances).Keys
      ensures forall x :: x in instances ==>
                if Superseded(definitions, old(instances)[x])
                then instances[x] in Successors(definitions, old(instances)[x])
                else instances[x] == old(instances)[x]
    {
      var moved: Instances := map[];
      var todo := instances.Keys;
      while todo != {}
        invariant todo <= instances.Keys && moved.Keys == instances.Keys - todo
        invariant instances == old(instances)
        invariant forall x :: x in moved ==>
                    if Superseded(definitions, instances[x]) then moved[x] in Successors(definitions, instances[x])
                    else moved[x] == instances[x]
        decreases |todo|
      {
        var x :| x in todo;
        var target := instances[x];
        if Superseded(definitions, target) {
          var n :| n in Successors(definitions, target);
          target := n;
        }
        moved := moved[x := target];
        todo := todo - {x};
      }
      instances := moved;
    }

    /** DELETE FROM workflow_definitions: refused while an instance names a deleted row. */
    method DeleteSuperseded() returns (ok: bool)
      requires ForeignKeys(definitions, instances)
      modifies this`definitions
      ensures ok <==> forall x :: x in instances ==> Survives(old(definitions), instances[x])
      ensures definitions == if ok then Surviving(old(definitions)) else old(definitions)
      ensures ForeignKeys(definitions, instances)
    {
      ok := forall x :: x in instances ==> Survives(definitions, instances[x]);
      if ok {
        var snapshot := definitions;
        definitions := map d | d in snapshot && Survives(snapshot, d) :: snapshot[d];
      }
    }

    /** UPDATE workflow_definitions: the old definitions of entities without a new one. */
    method RenameRest()
      modifies this`definitions
      ensures definitions == map d | d in old(definitions) ::
                if old(definitions)[d].slug == OldSlug && Successors(old(definitions), d) == {}
                then old(definitions)[d].(slug := NewSlug) else old(definitions)[d]
    {
      var snapshot := definitions;
      definitions := map d | d in snapshot ::
        if snapshot[d].slug == OldSlug && Successors(snapshot, d) == {} then snapshot[d].(slug := NewSlug)
          else snapshot[d];
    }

    /** _migrate_workflow_slug: no statement is refused, references resolve throughout, and
        every instance ends at a definition of its own entity: its old one, renamed if
        need be, or a successor of it. */
    method MigrateWorkflowSlug() returns (ok: bool)
      requires ForeignKeys(definitions, instances)
      modifies this
      ensures ok && definitions == Renamed(old(definitions)) && ForeignKeys(definitions, instances)
      ensures forall d :: d in definitions <==> d in old(definitions) && !HasNew(old(definitions), d)
      ensures forall d :: d in definitions ==>
                && definitions[d].entity == old(definitions)[d].entity
                && definitions[d].slug == (if old(definitions)[d].slug == OldSlug then NewSlug
                                           else old(definitions)[d].slug)
      ensures instances.Keys == old(instances).Keys
      ensures forall x :: x in instances && !HasNew(old(definitions), old(instances)[x]) ==>
                instances[x] == old(instances)[x]
      ensures forall x :: x in instances ==>
                var (d, n) := (old(instances)[x], instances[x]);
                && definitions[n].entity == old(definitions)[d].entity
                && (if old(definitions)[d].slug == OldSlug then definitions[n].slug == NewSlug
                    else n == d && definitions[n] == old(definitions)[d])
    {
      ghost var ds, ns := definitions, instances;
      SupersededHasNew(ds);
      MoveInstances();
      forall x | x in instances ensures instances[x] in ds && Survives(ds, instances[x]) {
        assert ns[x] in ds;
      }
      ok := DeleteSuperseded();
      RenameRest();
      RenamingIsComplete(ds, definitions);
    }
  }

  /** Deleting the superseded definitions and renaming the rest leaves no old slug. */
  lemma RenamingIsComplete(ds: Definitions, after: Definitions)
    requires
      var kept := map d | d in ds && Survives(ds, d) :: ds[d];
      after == map d | d in kept ::
        if kept[d].slug == OldSlug && Successors(kept, d) == {} then kept[d].(slug := NewSlug) else kept[d]
    ensures after == Renamed(ds)
    ensures forall d :: d in after ==> after[d].slug != OldSlug
  {
    var kept := map d | d in ds && Survives(ds, d) :: ds[d];
    forall d | d in kept && kept[d].slug == OldSlug ensures Successors(kept, d) == {} {
      assert Successors(ds, d) == {};
      assert Successors(kept, d) <= Successors(ds, d);
    }
  }

  /** Nothing in the schema keeps an entity from two definitions of one slug; the migration
      leaves at most one under the new slug exactly when no entity had two new ones, nor
      two old ones and no new one. */
  lemma OneNewPerEntityExactly(ds: Definitions)
    ensures OneNewPerEntity(Renamed(ds)) <==> forall c, d :: c in ds && d in ds ==> !Doubled(ds, c, d)
  {
    var r := Renamed(ds);
    forall c, d | c in ds && d in ds && Doubled(ds, c, d) ensures !OneNewPerEntity(r) {
      assert Successors(ds, c) == Successors(ds, d);
      assert c in r && d in r && r[c].slug == NewSlug && r[d].slug == NewSlug;
    }
    if !OneNewPerEntity(r) {
      var c, d :| c in r && d in r && c != d && r[c].slug == NewSlug && r[d].slug == NewSlug &&
          r[c].entity == r[d].entity;
      assert ds[c].slug == NewSlug ==> c in Successors(ds, d);
      assert ds[d].slug == NewSlug ==> d in Successors(ds, c);
      assert Doubled(ds, c, d);
    }
  }

  /** An entity with two old definitions and no new one ends with two new ones. */
  lemma TwoOldBecomeTwoNew()
    ensures var ds: Definitions := map[0 := Definition(0, OldSlug), 1 := Definition(0, OldSlug)];
            !OneNewPerEntity(Renamed(ds))
  {
    var ds: Definitions := map[0 := Definition(0, OldSlug), 1 := Definition(0, OldSlug)];
    assert 0 in ds && 1 in ds && Doubled(ds, 0, 1);
    OneNewPerEntityExactly(ds);
  }
}
