/**
 The inventory composition importer: two owner maps that live for one global import run, and the
 operations that read a file and reconcile a table with it inside one transaction.
 */
module CompositionImporter {
  import opened Wrappers
  import opened Sql
  import opened CompositionModel
  import InventoriesImport
  import ChildrenImport
  import PreferredElection

  /** No look at the token asks to stop, before, while or after the lines are read, and the transaction commits. */
  ghost predicate Uninterrupted(faults: Faults, lines: nat) {
    && !faults.cancelled(0) && faults.NeverStops(1024, lines) && !faults.cancelled(lines + 1)
    && !faults.begin && !faults.commit
  }

  class Importer {
    var inventoryOwners: map<Text, bool>
    var minifigInventoryOwners: map<Text, int>

    constructor ()
      ensures inventoryOwners == map[] && minifigInventoryOwners == map[]
    {
      inventoryOwners, minifigInventoryOwners := map[], map[];
    }

    /** `input` is None when the file or its header cannot be used. */
    method ImportInventories(input: Option<seq<InventoryRow>>, db: Connection<Catalog>, faults: Faults)
      returns (r: Result)
      requires db.Idle() && CatalogOk(db.committed)
      modifies this, db
      ensures db.Idle()
      ensures r.success ==> input.Some? && Uninterrupted(faults, |input.value|)
      ensures r.success ==> InventoriesCommitted(
        old(db.committed), input.value, db.committed, inventoryOwners, minifigInventoryOwners, r)
      ensures !r.success ==> db.committed == old(db.committed)
      ensures !r.success ==> inventoryOwners == map[] && minifigInventoryOwners == map[]
      ensures faults.Quiet() && input.Some? && InventoriesFileOk(old(db.committed), input.value)
              && NeverBlocked(old(db.committed), input.value)
              ==> r.success
    {
      inventoryOwners, minifigInventoryOwners := map[], map[];
      r := NO_RESULT;
      if input.None? || faults.cancelled(0) {
        return;
      }
      var begun := db.Begin(faults.begin);
      if !begun {
        return;
      }
      var read, after, pass, counted := InventoriesImport.ReadInventories(db.working, input.value, faults);
      r := counted;
      var done := db.Conclude(read, after, faults.commit);
      if !done {
        return;
      }
      r := r.(success := true);
      inventoryOwners, minifigInventoryOwners := pass.owners, pass.minifigOwners;
    }

    /** importParts, importMinifigs and importSets: one routine, told which file it reads. */
    method ImportChildren(kind: Kind, input: Option<seq<ChildRow>>, db: Connection<Catalog>, faults: Faults)
      returns (r: Result)
      requires db.Idle()
      modifies db
      ensures db.Idle()
      ensures r.success ==> input.Some? && Uninterrupted(faults, |input.value|)
      ensures r.success ==> ChildrenCommitted(
        kind, old(db.committed), inventoryOwners, minifigInventoryOwners, input.value, db.committed, r)
      ensures !r.success ==> db.committed == old(db.committed)
      ensures faults.Quiet() && input.Some?
              && ChildFileOk(ContextOf(kind, old(db.committed), inventoryOwners, minifigInventoryOwners), input.value)
              ==> r.success
    {
      r := NO_RESULT;
      if input.None? || (kind.Parts? && inventoryOwners == map[]) {
        return;
      }
      var x := ContextOf(kind, db.working, inventoryOwners, minifigInventoryOwners);
      if faults.cancelled(0) {
        return;
      }
      var begun := db.Begin(faults.begin);
      if !begun {
        return;
      }
      var read, after, counted := ChildrenImport.ReadChildren(x, db.working, input.value, faults);
      r := counted;
      var done := db.Conclude(read, after, faults.commit);
      if !done {
        return;
      }
      r := r.(success := true);
    }

    /** Make the highest active version of every set its preferred revision. */
    method SelectPreferredRevisions(db: Connection<Catalog>, faults: Faults) returns (r: Result)
      requires db.Idle() && CatalogOk(db.committed)
      modifies db
      ensures db.Idle()
      ensures r.success ==> ElectionCommitted(old(db.committed), db.committed, r)
      ensures !r.success ==> db.committed == old(db.committed)
      ensures faults.Quiet() ==> r.success
    {
      r := NO_RESULT;
      var table := db.working.revisions;
      var desired := set e | e in table && Elected(table, e);
      var current := set e | e in table && table[e].preferred;
      if desired == current {
        PreferredElection.NothingToDo(table);
        assert desired - current == {} && current - desired == {};
        return r.(success := true);
      }
      var begun := db.Begin(faults.begin);
      if !begun {
        return;
      }
      var marked, now := PreferredElection.MarkWinners(table, db.working.nextRevision, desired, faults);
      if marked {
        r := r.(preferredChanged := |desired - current| + |current - desired|);
      }
      var done := db.Conclude(marked, db.working.(revisions := now), faults.commit);
      r := r.(success := done);
    }
  }
}
