/**
 What importInventories does inside its transaction, line by line, and the proof that the result is the
 relation `InventoriesCommitted`.
 */
module InventoriesImport {
  import opened Wrappers
  import opened Sql
  import opened CompositionModel
  import opened Counting

  // ----- Reading inventories.csv

  /** What importInventories remembers about the lines it has accepted. */
  datatype Pass = Pass(
    seen: set<Text>, seenSets: set<Text>, versions: set<(Text, int)>,
    owners: map<Text, bool>, minifigOwners: map<Text, int>)

  const FIRST_PASS := Pass({}, {}, {}, map[], map[])

  predicate Acceptable(c: Catalog, p: Pass, row: InventoryRow) {
    && RowOk(c, row)
    && row.external !in p.seen
    && !(row.setNumber in c.sets && (row.setNumber, row.version.value) in p.versions)
  }

  function Remember(c: Catalog, p: Pass, row: InventoryRow): Pass
    requires RowOk(c, row)
  {
    var isSet := row.setNumber in c.sets;
    Pass(p.seen + {row.external},
         if isSet then p.seenSets + {row.external} else p.seenSets,
         if isSet then p.versions + {(row.setNumber, row.version.value)} else p.versions,
         p.owners[row.external := isSet],
         if isSet then p.minifigOwners else p.minifigOwners[row.external := c.minifigs[row.setNumber]])
  }

  /** The lines of a prefix that the importer got through. */
  ghost predicate LinesOk(c: Catalog, rows: seq<InventoryRow>) {
    && (forall i | 0 <= i < |rows| :: RowOk(c, rows[i]))
    && (forall i, j | 0 <= i < j < |rows| :: !SameInventory(c, rows[i], rows[j]))
  }

  ghost function PassOf(c: Catalog, rows: seq<InventoryRow>): Pass
    requires forall i | 0 <= i < |rows| :: RowOk(c, rows[i])
  {
    if rows == [] then FIRST_PASS else Remember(c, PassOf(c, rows[..|rows| - 1]), rows[|rows| - 1])
  }

  /** The maps the importer fills line by line are the ones the file stands for. */
  lemma {:induction false} PassMeaning(c: Catalog, rows: seq<InventoryRow>)
    requires forall i | 0 <= i < |rows| :: RowOk(c, rows[i])
    ensures var p := PassOf(c, rows);
      && p.owners == FileOwners(c, rows) && p.minifigOwners == FileMinifigOwners(c, rows)
      && p.seenSets == FileSlots(c, rows).Keys && p.seenSets <= p.seen
  {
    if rows != [] {
      PassMeaning(c, rows[..|rows| - 1]);
    }
  }

  lemma {:induction false} PassSeen(c: Catalog, rows: seq<InventoryRow>, e: Text)
    requires forall i | 0 <= i < |rows| :: RowOk(c, rows[i])
    ensures e in PassOf(c, rows).seen <==> exists k :: 0 <= k < |rows| && rows[k].external == e
  {
    if rows != [] {
      PassSeen(c, rows[..|rows| - 1], e);
      assert forall k | 0 <= k < |rows| - 1 :: rows[..|rows| - 1][k] == rows[k];
    }
  }

  lemma {:induction false} PassVersions(c: Catalog, rows: seq<InventoryRow>, n: Text, v: int)
    requires forall i | 0 <= i < |rows| :: RowOk(c, rows[i])
    ensures (n, v) in PassOf(c, rows).versions <==>
      n in c.sets && exists k :: 0 <= k < |rows| && rows[k].setNumber == n && rows[k].version == Some(v)
  {
    if rows != [] {
      PassVersions(c, rows[..|rows| - 1], n, v);
      assert forall k | 0 <= k < |rows| - 1 :: rows[..|rows| - 1][k] == rows[k];
    }
  }

  /** The importer's own tests accept the next line exactly when the longer prefix is still importable. */
  lemma AcceptableIff(c: Catalog, rows: seq<InventoryRow>, i: nat)
    requires i < |rows| && LinesOk(c, rows[..i])
    ensures Acceptable(c, PassOf(c, rows[..i]), rows[i]) <==> LinesOk(c, rows[..i + 1])
  {
    var some, row, p := rows[..i], rows[i], PassOf(c, rows[..i]);
    assert rows[..i + 1] == some + [row];
    PassSeen(c, some, row.external);
    if RowOk(c, row) {
      PassVersions(c, some, row.setNumber, row.version.value);
      if !Acceptable(c, p, row) {
        var k :| 0 <= k < i && SameInventory(c, some[k], row);
        assert SameInventory(c, (some + [row])[k], (some + [row])[i]);
      }
    } else {
      assert !RowOk(c, (some + [row])[i]);
    }
  }

  lemma NextLine(c: Catalog, rows: seq<InventoryRow>, i: nat)
    requires i < |rows| && LinesOk(c, rows[..i + 1])
    ensures LinesOk(c, rows[..i]) && RowOk(c, rows[i])
    ensures PassOf(c, rows[..i + 1]) == Remember(c, PassOf(c, rows[..i]), rows[i])
    ensures FileSlots(c, rows[..i + 1]) ==
      if rows[i].setNumber in c.sets
      then FileSlots(c, rows[..i])[rows[i].external := Slot(c.sets[rows[i].setNumber], rows[i].version.value)]
      else FileSlots(c, rows[..i])
  {
    assert rows[..i + 1][..i] == rows[..i];
    assert rows[..i + 1][i] == rows[i];
    forall j, k | 0 <= j < k < i ensures !SameInventory(c, rows[..i][j], rows[..i][k]) {
      assert !SameInventory(c, rows[..i + 1][j], rows[..i + 1][k]);
    }
    forall k | 0 <= k < i ensures RowOk(c, rows[..i][k]) {
      assert RowOk(c, rows[..i + 1][k]);
    }
  }

  lemma LinesOkPrefix(c: Catalog, rows: seq<InventoryRow>, i: nat)
    requires i <= |rows| && LinesOk(c, rows)
    ensures LinesOk(c, rows[..i])
  {
    forall j, k | 0 <= j < k < i ensures !SameInventory(c, rows[..i][j], rows[..i][k]) {
      assert !SameInventory(c, rows[j], rows[k]);
    }
  }

  /** A line the importer stops at, with nothing outside the program to blame, is the file's fault. */
  lemma NotImportable(c: Catalog, rows: seq<InventoryRow>, i: nat, fault: bool)
    requires i < |rows|
    requires fault || !LinesOk(c, rows[..i + 1]) || !Unblocked(c, rows, i)
    ensures fault || !InventoriesFileOk(c, rows) || !NeverBlocked(c, rows)
  {
    if LinesOk(c, rows) {
      LinesOkPrefix(c, rows, i + 1);
    }
    UnblockedIff(c, rows, |rows|);
  }

  lemma NotYetSeen(c: Catalog, rows: seq<InventoryRow>, i: nat)
    requires i < |rows| && LinesOk(c, rows[..i]) && Acceptable(c, PassOf(c, rows[..i]), rows[i])
    ensures rows[i].external !in FileSlots(c, rows[..i])
  {
    PassMeaning(c, rows[..i]);
  }

  // ----- Writing set_inventory_revision

  /** The rows of `done` have been applied to `before`, and the schema's rules hold. */
  ghost predicate Writing(before: Revisions, first: int, done: map<Text, Slot>, table: Revisions, next: int) {
    && first <= next
    && Overlaid(before, done, table, first, next)
    && RevisionsOk(table, next)
  }

  /** A table part-way through the file clashes with a new row exactly where the stored rows say so. */
  lemma RefusedIffBlocked(
    before: Revisions, first: int, done: map<Text, Slot>, table: Revisions, next: int, external: Text, row: Revision)
    requires Writing(before, first, done, table, next)
    requires row.preferred == (external in before && before[external].preferred)
    ensures Refused(table, external, row) <==> Blocked(before, done, external, Slot(row.setId, row.version))
  {
    var plain := Revision(0, row.setId, row.version, true, row.preferred);
    if Refused(table, external, row) {
      var other :| other in table && other != external && Clash(table[other], row);
      assert Clash(Standing(before, done, other), plain);
    }
    if Blocked(before, done, external, Slot(row.setId, row.version)) {
      var other :| (other in before || other in done) && other != external
        && Clash(Standing(before, done, other), plain);
      assert Clash(table[other], row);
    }
  }

  /** The schema's rules survive writing a row that the schema does not refuse. */
  lemma RulesStep(table: Revisions, next: int, external: Text, row: Revision, next': int)
    requires RevisionsOk(table, next) && next <= next' && row.active
    requires !Refused(table, external, row)
    requires if external in table then row.id == table[external].id else row.id == next < next'
    ensures RevisionsOk(table[external := row], next')
  {
    var after := table[external := row];
    forall a, b | a in after && b in after && a != b
      ensures after[a].id != after[b].id && !Clash(after[a], after[b])
    {
      if a == external {
        assert !Clash(table[b], row);
      } else if b == external {
        assert !Clash(table[a], row);
      }
    }
  }

  /** One more line of the file is in the table. */
  lemma OverlayStep(
    before: Revisions, done: map<Text, Slot>, table: Revisions, first: int, next: int,
    external: Text, slot: Slot, row: Revision, next': int)
    requires Overlaid(before, done, table, first, next) && next <= next' && external !in done
    requires Applied(before, external, slot, row, first, next')
    ensures Overlaid(before, done[external := slot], table[external := row], first, next')
  {
    forall e | e in done ensures Applied(before, e, done[e], table[e], first, next') {
      assert Applied(before, e, done[e], table[e], first, next);
    }
  }

  /** A line that repeats the stored row needs no write, and no other row can clash with it. */
  lemma KeptStep(
    before: Revisions, done: map<Text, Slot>, table: Revisions, first: int, next: int, external: Text, slot: Slot)
    requires Overlaid(before, done, table, first, next) && RevisionsOk(table, next) && external !in done
    requires Same(before, done[external := slot], external)
    ensures Overlaid(before, done[external := slot], table, first, next)
    ensures !Refused(table, external, before[external])
  {
    assert table[external] == before[external];
    assert (before.Keys + done.Keys) + {external} == before.Keys + done.Keys;
    AddKey(done, external, slot);
  }

  datatype Outcome = Failed | Inserted | Kept | Updated

  /** One set line of inventories.csv against the rows of the open transaction. */
  method ApplySlot(
    before: Revisions, table: Revisions, next: int, external: Text, slot: Slot, fault: bool,
    ghost first: int, ghost done: map<Text, Slot>)
    returns (o: Outcome, table': Revisions, next': int)
    requires Writing(before, first, done, table, next) && external !in done
    ensures o.Failed? ==> fault || Blocked(before, done, external, slot)
    ensures !o.Failed? ==> !Blocked(before, done, external, slot)
    ensures !o.Failed? ==> Writing(before, first, done[external := slot], table', next')
    ensures !o.Failed? ==> (o.Inserted? <==> external !in before)
    ensures !o.Failed? ==> (o.Kept? <==> Same(before, done[external := slot], external))
  {
    if external !in before {
      var added := Revision(next, slot.setId, slot.version, true, false);
      RefusedIffBlocked(before, first, done, table, next, external, added);
      if fault || Refused(table, external, added) {
        return Failed, table, next;
      }
      RulesStep(table, next, external, added, next + 1);
      OverlayStep(before, done, table, first, next, external, slot, added, next + 1);
      return Inserted, table[external := added], next + 1;
    }
    var changed := before[external].(setId := slot.setId, version := slot.version, active := true);
    RefusedIffBlocked(before, first, done, table, next, external, changed);
    if before[external].setId == slot.setId && before[external].version == slot.version && before[external].active {
      KeptStep(before, done, table, first, next, external, slot);
      return Kept, table, next;
    }
    if fault || Refused(table, external, changed) {
      return Failed, table, next;
    }
    RulesStep(table, next, external, changed, next);
    OverlayStep(before, done, table, first, next, external, slot, changed, next);
    return Updated, table[external := changed], next;
  }

  // ----- Counting

  ghost predicate Tallied(before: Revisions, slots: map<Text, Slot>, rows: int, r: Result) {
    && !r.success
    && r.deactivated == 0
    && r.rowsRead == rows
    && r.setInventoryRows == |slots.Keys|
    && r.recognizedMinifigInventories == rows - |slots.Keys|
    && r.inserted == |slots.Keys - before.Keys|
    && r.kept == |SameSet(before, slots)|
    && r.updated == |slots.Keys| - r.inserted - r.kept
  }

  function Tally(r: Result, o: Outcome): Result {
    r.(setInventoryRows := r.setInventoryRows + 1,
       inserted := if o.Inserted? then r.inserted + 1 else r.inserted,
       kept := if o.Kept? then r.kept + 1 else r.kept,
       updated := if o.Updated? then r.updated + 1 else r.updated)
  }

  lemma CountKept(before: Revisions, done: map<Text, Slot>, external: Text, slot: Slot)
    requires external !in done
    ensures |SameSet(before, done[external := slot])| ==
      |SameSet(before, done)| + if Same(before, done[external := slot], external) then 1 else 0
  {
    var slots := done[external := slot];
    if Same(before, slots, external) {
      assert SameSet(before, slots) == SameSet(before, done) + {external};
    } else {
      assert SameSet(before, slots) == SameSet(before, done);
    }
  }

  lemma TallyStep(
    before: Revisions, done: map<Text, Slot>, external: Text, slot: Slot, rows: int, r: Result, o: Outcome)
    requires Tallied(before, done, rows, r) && external !in done && !o.Failed?
    requires o.Inserted? <==> external !in before
    requires o.Kept? <==> Same(before, done[external := slot], external)
    ensures Tallied(before, done[external := slot], rows + 1, Tally(r, o).(rowsRead := rows + 1))
  {
    CountKept(before, done, external, slot);
    AddKey(done, external, slot);
    AddNew(done.Keys, external);
    AddOutside(before.Keys, done.Keys, external);
  }

  // ----- Retiring what the file no longer names

  ghost function Retiring(table: Revisions, gone: set<Text>): Revisions {
    map e | e in table :: if e in gone then table[e].(active := false, preferred := false) else table[e]
  }

  lemma RetiringGivesSnapshot(before: Revisions, first: int, slots: map<Text, Slot>, table: Revisions, next: int)
    requires forall e | e in before :: before[e].preferred ==> before[e].active
    requires Overlaid(before, slots, table, first, next)
    ensures Snapshot(before, slots, Retiring(table, Retired(before, slots.Keys)), first, next)
  {
  }

  lemma RetiringKeepsRules(table: Revisions, gone: set<Text>, next: int)
    requires RevisionsOk(table, next)
    ensures RevisionsOk(Retiring(table, gone), next)
  {
    var after := Retiring(table, gone);
    forall a, b | a in after && b in after && a != b
      ensures after[a].id != after[b].id && !Clash(after[a], after[b])
    {
      assert !Clash(table[a], table[b]);
    }
  }

  lemma RetireOne(table: Revisions, gone: set<Text>, e: Text)
    requires e in table && e !in gone
    ensures var now := Retiring(table, gone);
      now[e := now[e].(active := false, preferred := false)] == Retiring(table, gone + {e})
  {
  }

  lemma RetireNone(table: Revisions)
    ensures Retiring(table, {}) == table
  {
  }

  /** The UPDATE ... SET is_active=0,is_preferred=0 statements: one for each active row the file does not name. */
  method Retire(before: Revisions, seen: set<Text>, table: Revisions, faults: Faults, from: nat)
    returns (ok: bool, table': Revisions, retired: int)
    requires Retired(before, seen) <= table.Keys
    ensures faults.Quiet() ==> ok
    ensures ok ==> retired == |Retired(before, seen)| && table' == Retiring(table, Retired(before, seen))
  {
    ghost var gone := Retired(before, seen);
    var pending, k := before.Keys, from;
    table', retired := table, 0;
    RetireNone(table);
    AllOrNone(gone, pending);
    while pending != {}
      invariant pending <= before.Keys
      invariant table' == Retiring(table, gone - pending)
      invariant retired == |gone - pending|
      decreases pending
    {
      var e :| e in pending;
      if before[e].active && e !in seen {
        if faults.statement(k) {
          return false, table', retired;
        }
        TakeMember(gone, pending, e);
        RetireOne(table, gone - pending, e);
        table' := table'[e := table'[e].(active := false, preferred := false)];
        retired, k := retired + 1, k + 1;
      } else {
        TakeOther(gone, pending, e);
      }
      pending := pending - {e};
    }
    AllOrNone(gone, pending);
    ok := true;
  }

  /** How far the row loop has come: the lines of `done` are read, written and counted. */
  datatype State = State(pass: Pass, r: Result, table: Revisions, next: int)

  ghost predicate Progress(c: Catalog, rows: seq<InventoryRow>, i: nat, s: State)
    requires i <= |rows|
  {
    var done := rows[..i];
    && LinesOk(c, done)
    && UnblockedTo(c, rows, i)
    && s.pass == PassOf(c, done)
    && Writing(c.revisions, c.nextRevision, FileSlots(c, done), s.table, s.next)
    && Tallied(c.revisions, FileSlots(c, done), i, s.r)
  }

  lemma NothingRead(c: Catalog, rows: seq<InventoryRow>)
    requires CatalogOk(c)
    ensures Progress(c, rows, 0, State(FIRST_PASS, NO_RESULT, c.revisions, c.nextRevision))
  {
    var slots := FileSlots(c, rows[..0]);
    assert slots == map[];
    assert slots.Keys - c.revisions.Keys == {} && SameSet(c.revisions, slots) == {};
  }

  lemma SetLine(c: Catalog, rows: seq<InventoryRow>, i: nat, s: State, outcome: Outcome, table: Revisions, next: int)
    requires i < |rows| && Progress(c, rows, i, s) && LinesOk(c, rows[..i + 1]) && rows[i].setNumber in c.sets
    requires RowOk(c, rows[i]) && rows[i].external !in FileSlots(c, rows[..i])
    requires !outcome.Failed? && Unblocked(c, rows, i)
    requires var slot := Slot(c.sets[rows[i].setNumber], rows[i].version.value);
      var slots := FileSlots(c, rows[..i])[rows[i].external := slot];
      && Writing(c.revisions, c.nextRevision, slots, table, next)
      && (outcome.Inserted? <==> rows[i].external !in c.revisions)
      && (outcome.Kept? <==> Same(c.revisions, slots, rows[i].external))
    ensures Progress(c, rows, i + 1,
      State(Remember(c, s.pass, rows[i]), Tally(s.r, outcome).(rowsRead := i + 1), table, next))
  {
    NextLine(c, rows, i);
    TallyStep(c.revisions, FileSlots(c, rows[..i]), rows[i].external,
              Slot(c.sets[rows[i].setNumber], rows[i].version.value), i, s.r, outcome);
  }

  lemma MinifigLine(c: Catalog, rows: seq<InventoryRow>, i: nat, s: State)
    requires i < |rows| && Progress(c, rows, i, s) && LinesOk(c, rows[..i + 1])
    requires RowOk(c, rows[i]) && rows[i].setNumber !in c.sets
    ensures Progress(c, rows, i + 1, s.(pass := Remember(c, s.pass, rows[i]),
      r := s.r.(rowsRead := i + 1, recognizedMinifigInventories := s.r.recognizedMinifigInventories + 1)))
  {
    NextLine(c, rows, i);
  }

  /** One line of inventories.csv. */
  method ReadLine(c: Catalog, rows: seq<InventoryRow>, i: nat, s: State, fault: bool)
    returns (read: bool, s': State)
    requires i < |rows| && Progress(c, rows, i, s)
    ensures read ==> Progress(c, rows, i + 1, s')
    ensures !read ==> fault || !InventoriesFileOk(c, rows) || !NeverBlocked(c, rows)
  {
    var row := rows[i];
    AcceptableIff(c, rows, i);
    if !Acceptable(c, s.pass, row) {
      NotImportable(c, rows, i, fault);
      return false, s;
    }
    if row.setNumber !in c.sets {
      MinifigLine(c, rows, i, s);
      return true, s.(pass := Remember(c, s.pass, row),
        r := s.r.(rowsRead := i + 1, recognizedMinifigInventories := s.r.recognizedMinifigInventories + 1));
    }
    NotYetSeen(c, rows, i);
    var slot := Slot(c.sets[row.setNumber], row.version.value);
    var outcome, table, next := ApplySlot(
      c.revisions, s.table, s.next, row.external, slot, fault, c.nextRevision, FileSlots(c, rows[..i]));
    if outcome.Failed? {
      NotImportable(c, rows, i, fault);
      return false, s;
    }
    SetLine(c, rows, i, s, outcome, table, next);
    return true, State(Remember(c, s.pass, row), Tally(s.r, outcome).(rowsRead := i + 1), table, next);
  }

  /** The first `i` lines are read and nobody asked to stop. */
  ghost predicate Going(c: Catalog, rows: seq<InventoryRow>, i: nat, s: State, faults: Faults)
    requires i <= |rows|
  {
    Progress(c, rows, i, s) && faults.NeverStops(1024, i)
  }

  /** One pass through the row loop; the token is looked at with every 1024th row. */
  method NextRow(c: Catalog, rows: seq<InventoryRow>, i: nat, s: State, faults: Faults) returns (more: bool, s': State)
    requires CatalogOk(c) && i < |rows| && Going(c, rows, i, s, faults)
    ensures more ==> Going(c, rows, i + 1, s', faults)
    ensures faults.Quiet() && InventoriesFileOk(c, rows) && NeverBlocked(c, rows) ==> more
  {
    if faults.StopsAt(1024, i + 1) {
      return false, s;
    }
    more, s' := ReadLine(c, rows, i, s, faults.statement(i));
  }

  /** The row loop of importInventories. `read` is false when it stopped early. */
  method ApplyInventories(c: Catalog, rows: seq<InventoryRow>, faults: Faults)
    returns (read: bool, s: State)
    requires CatalogOk(c)
    ensures read ==> Going(c, rows, |rows|, s, faults)
    ensures faults.Quiet() && InventoriesFileOk(c, rows) && NeverBlocked(c, rows) ==> read
  {
    s := State(FIRST_PASS, NO_RESULT, c.revisions, c.nextRevision);
    var i := 0;
    NothingRead(c, rows);
    while i < |rows|
      invariant 0 <= i <= |rows| && Going(c, rows, i, s, faults)
    {
      read, s := NextRow(c, rows, i, s, faults);
      if !read {
        return;
      }
      i := i + 1;
    }
    read := true;
  }

  lemma AllRead(c: Catalog, rows: seq<InventoryRow>, s: State)
    requires Progress(c, rows, |rows|, s)
    ensures s.pass.seenSets == FileSlots(c, rows).Keys && c.revisions.Keys <= s.table.Keys && !s.r.success
  {
    assert rows[..|rows|] == rows;
    PassMeaning(c, rows);
  }

  lemma InventoriesDone(c: Catalog, rows: seq<InventoryRow>, s: State, after: Catalog)
    requires CatalogOk(c) && rows != [] && Progress(c, rows, |rows|, s)
    requires after == c.(
      revisions := Retiring(s.table, Retired(c.revisions, FileSlots(c, rows).Keys)), nextRevision := s.next)
    ensures InventoriesCommitted(c, rows, after, s.pass.owners, s.pass.minifigOwners,
      s.r.(deactivated := |Retired(c.revisions, FileSlots(c, rows).Keys)|))
  {
    assert rows[..|rows|] == rows;
    PassMeaning(c, rows);
    RetiringGivesSnapshot(c.revisions, c.nextRevision, FileSlots(c, rows), s.table, s.next);
    RetiringKeepsRules(s.table, Retired(c.revisions, FileSlots(c, rows).Keys), s.next);
  }

  /** Everything importInventories does inside its transaction. */
  method ReadInventories(c: Catalog, rows: seq<InventoryRow>, faults: Faults)
    returns (read: bool, after: Catalog, pass: Pass, r: Result)
    requires CatalogOk(c)
    ensures !r.success
    ensures read ==> InventoriesCommitted(c, rows, after, pass.owners, pass.minifigOwners, r)
    ensures read ==> faults.NeverStops(1024, |rows|) && !faults.cancelled(|rows| + 1)
    ensures faults.Quiet() && InventoriesFileOk(c, rows) && NeverBlocked(c, rows) ==> read
  {
    var applied, s := ApplyInventories(c, rows, faults);
    after, pass, r := c, s.pass, s.r.(success := false);
    if !applied || faults.cancelled(|rows| + 1) || |rows| == 0 {
      return false, after, pass, r;
    }
    AllRead(c, rows, s);
    var ok, table, retired := Retire(c.revisions, pass.seenSets, s.table, faults, |rows|);
    if !ok {
      return false, after, pass, r;
    }
    after := c.(revisions := table, nextRevision := s.next);
    InventoriesDone(c, rows, s, after);
    return true, after, pass, r.(deactivated := retired);
  }
}
