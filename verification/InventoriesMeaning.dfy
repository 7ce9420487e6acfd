/**
 Which inventories files are accepted, and what a committed import of one leaves in the tables, in the owner
 maps and in the counters: over the fields of the lines and the tables they name.
 */
module InventoriesMeaning {
  import opened Wrappers
  import opened CompositionModel
  import opened CompositionRuns
  import opened Counting
  import InventoriesImport

  /** A line that can be read: an id, a version, and a number that is either a set's or a minifig's. */
  ghost predicate LineReads(c: Catalog, row: InventoryRow) {
    && row.wellFormed && row.external != EMPTY
    && row.version.Some? && row.version.value >= 0
    && (row.setNumber in c.sets || row.setNumber in c.minifigs)
    && !(row.setNumber in c.sets && row.setNumber in c.minifigs)
  }

  /** Which files pass: no id twice, and no version of a set twice. Minifigs may repeat a version. */
  lemma InventoriesAccepted(c: Catalog, rows: seq<InventoryRow>)
    ensures InventoriesFileOk(c, rows) <==>
      && |rows| > 0
      && (forall i | 0 <= i < |rows| :: LineReads(c, rows[i]))
      && (forall i, j | 0 <= i < j < |rows| :: rows[i].external != rows[j].external)
      && (forall i, j | 0 <= i < j < |rows| && rows[i].setNumber == rows[j].setNumber ::
            rows[i].setNumber in c.sets ==> rows[i].version != rows[j].version)
  {
    forall i, j | 0 <= i < j < |rows|
      ensures SameInventory(c, rows[i], rows[j]) <==>
        rows[i].external == rows[j].external
        || (rows[i].setNumber in c.sets && rows[i].setNumber == rows[j].setNumber
            && rows[i].version == rows[j].version)
    {
    }
    assert forall i | 0 <= i < |rows| :: RowOk(c, rows[i]) <==> LineReads(c, rows[i]);
  }

  // ----- Table and owner maps

  /** Some line has the id `e`. */
  ghost predicate Named(rows: seq<InventoryRow>, e: Text) {
    exists i :: 0 <= i < |rows| && rows[i].external == e
  }

  /** The file names `e` as the inventory of a set. */
  ghost predicate NamedForSet(c: Catalog, rows: seq<InventoryRow>, e: Text) {
    exists i :: 0 <= i < |rows| && rows[i].external == e && rows[i].setNumber in c.sets
  }

  lemma {:induction false} SlotsAreNamed(c: Catalog, rows: seq<InventoryRow>, e: Text)
    requires InventoriesImport.LinesOk(c, rows)
    ensures e in FileSlots(c, rows) <==> NamedForSet(c, rows, e)
    ensures e in FileOwners(c, rows) <==> Named(rows, e)
  {
    if rows != [] {
      var before := rows[..|rows| - 1];
      LastLineIsNew(c, rows);
      SlotsAreNamed(c, before, e);
      assert forall i | 0 <= i < |before| :: before[i] == rows[i];
      assert Named(rows, e) <==> Named(before, e) || rows[|rows| - 1].external == e;
      if NamedForSet(c, before, e) {
        var i :| 0 <= i < |before| && before[i].external == e && before[i].setNumber in c.sets;
        assert rows[i].external == e && rows[i].setNumber in c.sets;
      }
    }
  }

  /** What the file says under the id of one of its lines. */
  lemma {:induction false} SlotOfLine(c: Catalog, rows: seq<InventoryRow>, i: nat)
    requires InventoriesImport.LinesOk(c, rows) && i < |rows|
    ensures var row := rows[i];
      && row.external in FileOwners(c, rows) && (FileOwners(c, rows)[row.external] <==> row.setNumber in c.sets)
      && (row.setNumber in c.sets ==>
            && row.version.Some? && row.external in FileSlots(c, rows)
            && FileSlots(c, rows)[row.external] == Slot(c.sets[row.setNumber], row.version.value))
      && (row.setNumber !in c.sets ==>
            && row.setNumber in c.minifigs && row.external in FileMinifigOwners(c, rows)
            && FileMinifigOwners(c, rows)[row.external] == c.minifigs[row.setNumber])
  {
    LastLineIsNew(c, rows);
    if i < |rows| - 1 {
      SlotOfLine(c, rows[..|rows| - 1], i);
      assert rows[|rows| - 1].external != rows[i].external;
    }
  }

  /** A line of the file as tables and maps have it afterwards. */
  ghost predicate LineStands(
    before: Catalog, row: InventoryRow, after: Catalog, owners: map<Text, bool>, minifigOwners: map<Text, int>)
  {
    && row.external in owners && (owners[row.external] <==> row.setNumber in before.sets)
    && (row.setNumber !in before.sets ==>
          && row.setNumber in before.minifigs && row.external in minifigOwners
          && minifigOwners[row.external] == before.minifigs[row.setNumber])
    && (row.setNumber in before.sets ==> row.external in after.revisions && RevisionStands(before, row, after))
  }

  /** The revision a set line leaves: the line's set and version, active; id and preference kept if it was stored. */
  ghost predicate RevisionStands(before: Catalog, row: InventoryRow, after: Catalog)
    requires row.setNumber in before.sets && row.external in after.revisions
  {
    var now := after.revisions[row.external];
    && now.setId == before.sets[row.setNumber] && Some(now.version) == row.version && now.active
    && (if row.external in before.revisions
        then now.id == before.revisions[row.external].id
             && now.preferred == before.revisions[row.external].preferred
        else before.nextRevision <= now.id < after.nextRevision && !now.preferred)
  }

  lemma LineIsStanding(
    before: Catalog, rows: seq<InventoryRow>, after: Catalog, owners: map<Text, bool>,
    minifigOwners: map<Text, int>, r: Result, i: nat)
    requires InventoriesCommitted(before, rows, after, owners, minifigOwners, r) && i < |rows|
    ensures LineStands(before, rows[i], after, owners, minifigOwners)
  {
    SlotOfLine(before, rows, i);
    if rows[i].setNumber in before.sets {
      var slots, e := FileSlots(before, rows), rows[i].external;
      assert Applied(before.revisions, e, slots[e], after.revisions[e], before.nextRevision, after.nextRevision);
    }
  }

  lemma IdStands(
    before: Catalog, rows: seq<InventoryRow>, after: Catalog, owners: map<Text, bool>,
    minifigOwners: map<Text, int>, r: Result, e: Text)
    requires InventoriesCommitted(before, rows, after, owners, minifigOwners, r)
    ensures e in owners <==> Named(rows, e)
    ensures e in after.revisions <==> e in before.revisions || NamedForSet(before, rows, e)
    ensures e in before.revisions && !NamedForSet(before, rows, e) ==>
      after.revisions[e] == before.revisions[e].(active := false, preferred := false)
  {
    SlotsAreNamed(before, rows, e);
  }

  /**
   After a successful import every line stands as above, rows the file does not name are still there, inactive
   and not preferred, and nothing else is.
   */
  lemma InventoriesHoldTheFile(
    before: Catalog, rows: seq<InventoryRow>, after: Catalog, owners: map<Text, bool>,
    minifigOwners: map<Text, int>, r: Result)
    requires InventoriesCommitted(before, rows, after, owners, minifigOwners, r)
    ensures forall i | 0 <= i < |rows| :: LineStands(before, rows[i], after, owners, minifigOwners)
    ensures forall e :: e in owners <==> Named(rows, e)
    ensures forall e :: e in after.revisions <==> e in before.revisions || NamedForSet(before, rows, e)
    ensures forall e | e in before.revisions && !NamedForSet(before, rows, e) ::
      after.revisions[e] == before.revisions[e].(active := false, preferred := false)
  {
    forall e
      ensures e in owners <==> Named(rows, e)
      ensures e in after.revisions <==> e in before.revisions || NamedForSet(before, rows, e)
      ensures e in before.revisions && !NamedForSet(before, rows, e) ==>
        after.revisions[e] == before.revisions[e].(active := false, preferred := false)
    {
      IdStands(before, rows, after, owners, minifigOwners, r, e);
    }
    forall i | 0 <= i < |rows| ensures LineStands(before, rows[i], after, owners, minifigOwners) {
      LineIsStanding(before, rows, after, owners, minifigOwners, r, i);
    }
  }

  // ----- Counters

  ghost function Active(table: Revisions): set<Text> {
    set e | e in table && table[e].active
  }

  /** Stored rows that are active afterwards, unchanged or not. */
  ghost function ActiveStored(was: Revisions, now: Revisions, changed: bool): set<Text> {
    set e | e in was && e in now && now[e].active && (now[e] != was[e] <==> changed)
  }

  lemma RowKinds(was: Revisions, slots: map<Text, Slot>, now: Revisions, first: int, next: int, e: Text)
    requires Snapshot(was, slots, now, first, next)
    ensures e in Active(now) <==> e in slots.Keys
    ensures e in slots.Keys - was.Keys <==> e in now.Keys - was.Keys
    ensures e in ActiveStored(was, now, false) <==> e in SameSet(was, slots)
    ensures e in Retired(was, slots.Keys) <==> e in Active(was) - Active(now)
  {
    if e in slots {
      assert Applied(was, e, slots[e], now[e], first, next);
    }
  }

  lemma SetsOfRows(was: Revisions, slots: map<Text, Slot>, now: Revisions, first: int, next: int)
    requires Snapshot(was, slots, now, first, next)
    ensures Active(now) == slots.Keys
    ensures slots.Keys - was.Keys == now.Keys - was.Keys
    ensures SameSet(was, slots) == ActiveStored(was, now, false)
    ensures Retired(was, slots.Keys) == Active(was) - Active(now)
  {
    forall e
      ensures e in Active(now) <==> e in slots.Keys
      ensures e in slots.Keys - was.Keys <==> e in now.Keys - was.Keys
      ensures e in ActiveStored(was, now, false) <==> e in SameSet(was, slots)
      ensures e in Retired(was, slots.Keys) <==> e in Active(was) - Active(now)
    {
      RowKinds(was, slots, now, first, next, e);
    }
  }

  /** Active rows came with the import, stayed as they were, or changed. */
  lemma ActiveSplit(was: Revisions, now: Revisions)
    requires now.Keys - was.Keys <= Active(now)
    ensures |Active(now)|
      == |now.Keys - was.Keys| + |ActiveStored(was, now, false)| + |ActiveStored(was, now, true)|
  {
    SizeOfThree(Active(now), now.Keys - was.Keys, ActiveStored(was, now, false), ActiveStored(was, now, true));
  }

  lemma SlotsCounted(was: Revisions, slots: map<Text, Slot>, now: Revisions, first: int, next: int, n: int, r: Result)
    requires Snapshot(was, slots, now, first, next) && InventoriesCounted(was, slots, n, r)
    ensures r.rowsRead == n && r.setInventoryRows == |Active(now)|
    ensures r.recognizedMinifigInventories == n - |Active(now)|
    ensures r.inserted == |now.Keys - was.Keys| && r.kept == |ActiveStored(was, now, false)|
    ensures r.updated == |ActiveStored(was, now, true)| && r.deactivated == |Active(was) - Active(now)|
  {
    SetsOfRows(was, slots, now, first, next);
    ActiveSplit(was, now);
  }

  /** The counters in terms of the stored table: rows that came, stayed as they were, changed, and were retired. */
  lemma CountersMeanTheTable(
    before: Catalog, rows: seq<InventoryRow>, after: Catalog, owners: map<Text, bool>,
    minifigOwners: map<Text, int>, r: Result)
    requires InventoriesCommitted(before, rows, after, owners, minifigOwners, r)
    ensures var was, now := before.revisions, after.revisions;
      && r.rowsRead == |rows| && r.setInventoryRows == |Active(now)|
      && r.recognizedMinifigInventories == |rows| - |Active(now)|
      && r.inserted == |now.Keys - was.Keys|
      && r.kept == |ActiveStored(was, now, false)|
      && r.updated == |ActiveStored(was, now, true)|
      && r.deactivated == |Active(was) - Active(now)|
  {
    SlotsCounted(
      before.revisions, FileSlots(before, rows), after.revisions, before.nextRevision, after.nextRevision, |rows|, r);
  }
}
