/**
 What holds over any sequence of inventory imports, child imports and elections, with any mix of success,
 failure and cancellation. The events are exactly the outcomes the importer's contracts allow.
 */
module CompositionRuns {
  import opened Wrappers
  import opened Sql
  import opened CompositionModel
  import opened Counting
  import CompositionImporter
  import InventoriesImport

  datatype Session = Session(owners: map<Text, bool>, minifigOwners: map<Text, int>, catalog: Catalog)

  datatype Event =
    | Inventories(lines: seq<InventoryRow>, counted: Result)
    | InventoriesFailed
    | Children(kind: Kind, rows: seq<ChildRow>, result: Result)
    | ChildrenFailed
    | Election(elected: Result)
    | ElectionFailed

  /** One call of the importer, as its contract describes it. */
  ghost predicate Next(s: Session, e: Event, t: Session) {
    match e
    case Inventories(lines, r) => InventoriesCommitted(s.catalog, lines, t.catalog, t.owners, t.minifigOwners, r)
    case InventoriesFailed => t == Session(map[], map[], s.catalog)
    case Children(kind, rows, r) =>
      && t == s.(catalog := t.catalog)
      && ChildrenCommitted(kind, s.catalog, s.owners, s.minifigOwners, rows, t.catalog, r)
    case Election(r) => t == s.(catalog := t.catalog) && ElectionCommitted(s.catalog, t.catalog, r)
    case ChildrenFailed => t == s
    case ElectionFailed => t == s
  }

  ghost predicate StepAt(states: seq<Session>, events: seq<Event>, i: nat)
    requires i < |events| < |states|
  {
    Next(states[i], events[i], states[i + 1])
  }

  ghost predicate Run(states: seq<Session>, events: seq<Event>) {
    |states| == |events| + 1 && forall i: nat | i < |events| :: StepAt(states, events, i)
  }

  ghost function SetOwned(owners: map<Text, bool>): set<Text> {
    set e | e in owners && owners[e]
  }

  ghost function MinifigOwned(owners: map<Text, bool>): set<Text> {
    set e | e in owners && !owners[e]
  }

  /** The session invariant: the schema's rules, and owner maps that are empty or describe the stored revisions. */
  ghost predicate Invariant(s: Session) {
    && CatalogOk(s.catalog)
    && s.minifigOwners.Keys == MinifigOwned(s.owners)
    && (s.owners != map[] ==> SetOwned(s.owners) == ActiveIds(s.catalog.revisions).Keys)
  }

  // ----- Inventories

  /** What the file says about who owns each inventory, line order aside. */
  lemma {:induction false} OwnersOfFile(c: Catalog, rows: seq<InventoryRow>)
    requires InventoriesImport.LinesOk(c, rows)
    ensures SetOwned(FileOwners(c, rows)) == FileSlots(c, rows).Keys
    ensures MinifigOwned(FileOwners(c, rows)) == FileMinifigOwners(c, rows).Keys
    ensures |FileOwners(c, rows).Keys| == |rows|
  {
    if rows != [] {
      var before, last := rows[..|rows| - 1], rows[|rows| - 1];
      LastLineIsNew(c, rows);
      OwnersOfFile(c, before);
      OneMoreOwner(FileOwners(c, before), last.external, last.setNumber in c.sets);
    }
  }

  lemma LastLineIsNew(c: Catalog, rows: seq<InventoryRow>)
    requires InventoriesImport.LinesOk(c, rows) && rows != []
    ensures InventoriesImport.LinesOk(c, rows[..|rows| - 1]) && RowOk(c, rows[|rows| - 1])
    ensures rows[|rows| - 1].external !in FileOwners(c, rows[..|rows| - 1])
  {
    InventoriesImport.LinesOkPrefix(c, rows, |rows| - 1);
    assert rows[..|rows|] == rows;
    InventoriesImport.AcceptableIff(c, rows, |rows| - 1);
    OwnersHaveSeen(c, rows[..|rows| - 1]);
  }

  lemma {:induction false} OwnersHaveSeen(c: Catalog, rows: seq<InventoryRow>)
    requires forall i | 0 <= i < |rows| :: RowOk(c, rows[i])
    ensures FileOwners(c, rows).Keys == InventoriesImport.PassOf(c, rows).seen
  {
    if rows != [] {
      OwnersHaveSeen(c, rows[..|rows| - 1]);
    }
  }

  lemma OneMoreSet(owners: map<Text, bool>, e: Text, isSet: bool)
    requires e !in owners
    ensures SetOwned(owners[e := isSet]) == SetOwned(owners) + (if isSet then {e} else {})
  {
  }

  lemma OneMoreMinifig(owners: map<Text, bool>, e: Text, isSet: bool)
    requires e !in owners
    ensures MinifigOwned(owners[e := isSet]) == MinifigOwned(owners) + (if isSet then {} else {e})
  {
  }

  lemma OneMoreOwner(owners: map<Text, bool>, e: Text, isSet: bool)
    requires e !in owners
    ensures SetOwned(owners[e := isSet]) == SetOwned(owners) + (if isSet then {e} else {})
    ensures MinifigOwned(owners[e := isSet]) == MinifigOwned(owners) + (if isSet then {} else {e})
    ensures |owners[e := isSet].Keys| == |owners.Keys| + 1
  {
    OneMoreSet(owners, e, isSet);
    OneMoreMinifig(owners, e, isSet);
    AddKey(owners, e, isSet);
    AddNew(owners.Keys, e);
  }

  /** After a successful import the active revisions are exactly the set inventories of the file. */
  lemma ActiveAreTheFile(c: Catalog, rows: seq<InventoryRow>, s: Session, r: Result)
    requires InventoriesCommitted(c, rows, s.catalog, s.owners, s.minifigOwners, r)
    ensures ActiveIds(s.catalog.revisions).Keys == FileSlots(c, rows).Keys
    ensures s.owners != map[]
  {
    ActiveAfterSnapshot(c.revisions, FileSlots(c, rows), s.catalog.revisions, c.nextRevision, s.catalog.nextRevision);
    OwnersOfFile(c, rows);
    assert |s.owners.Keys| > 0;
  }

  lemma ActiveAfterSnapshot(before: Revisions, slots: map<Text, Slot>, after: Revisions, fresh0: int, fresh1: int)
    requires Snapshot(before, slots, after, fresh0, fresh1)
    ensures ActiveIds(after).Keys == slots.Keys
  {
    forall e ensures e in ActiveIds(after) <==> e in slots {
      if e in slots {
        assert Applied(before, e, slots[e], after[e], fresh0, fresh1);
      }
    }
  }

  lemma InventoriesKeepInvariant(c: Catalog, rows: seq<InventoryRow>, s: Session, r: Result)
    requires CatalogOk(c) && InventoriesCommitted(c, rows, s.catalog, s.owners, s.minifigOwners, r)
    ensures Invariant(s)
  {
    ActiveAreTheFile(c, rows, s, r);
    OwnersOfFile(c, rows);
  }

  lemma ElectionKeepsRules(table: Revisions, next: int)
    requires RevisionsOk(table, next)
    ensures RevisionsOk(ElectedTable(table), next)
    ensures ActiveIds(ElectedTable(table)) == ActiveIds(table)
  {
    var after := ElectedTable(table);
    forall a, b | a in after && b in after && a != b
      ensures after[a].id != after[b].id && !Clash(after[a], after[b])
    {
      assert !Clash(table[a], table[b]);
    }
  }

  lemma NextKeepsInvariant(s: Session, e: Event, t: Session)
    requires Invariant(s) && Next(s, e, t)
    ensures Invariant(t)
  {
    match e
    case Inventories(lines, r) => InventoriesKeepInvariant(s.catalog, lines, t, r);
    case InventoriesFailed => assert MinifigOwned(map[]) == {};
    case Children(kind, rows, r) =>
    case Election(r) => ElectionKeepsRules(s.catalog.revisions, s.catalog.nextRevision);
    case ChildrenFailed =>
    case ElectionFailed =>
  }

  lemma {:induction false} InvariantAt(states: seq<Session>, events: seq<Event>, i: nat)
    requires Run(states, events) && Invariant(states[0]) && i < |states|
    ensures Invariant(states[i])
  {
    if i > 0 {
      InvariantAt(states, events, i - 1);
      assert StepAt(states, events, i - 1);
      NextKeepsInvariant(states[i - 1], events[i - 1], states[i]);
    }
  }

  /** Safety over whole runs: at most one preferred revision per set, preferred only if active, and all the rest. */
  lemma InvariantOverRuns(states: seq<Session>, events: seq<Event>)
    requires Run(states, events) && Invariant(states[0])
    ensures forall i | 0 <= i < |states| :: Invariant(states[i])
  {
    forall i | 0 <= i < |states| ensures Invariant(states[i]) {
      InvariantAt(states, events, i);
    }
  }

  /** Owner maps in use were produced by the last inventories import of the run, and it committed. */
  ghost predicate OwnersFrom(states: seq<Session>, events: seq<Event>, j: nat, i: nat)
    requires Run(states, events) && i < |states|
  {
    && j < i
    && events[j].Inventories?
    && states[i].owners == FileOwners(states[j].catalog, events[j].lines)
    && states[i].minifigOwners == FileMinifigOwners(states[j].catalog, events[j].lines)
    && forall k | j < k < i :: !events[k].Inventories? && !events[k].InventoriesFailed?
  }

  /** A step either commits an inventories import, or keeps the maps, or clears them. */
  lemma OwnersStep(states: seq<Session>, events: seq<Event>, k: nat)
    requires Run(states, events) && k < |events| && states[k + 1].owners != map[]
    ensures !events[k].InventoriesFailed?
    ensures events[k].Inventories? ==> OwnersFrom(states, events, k, k + 1)
    ensures !events[k].Inventories? ==>
      states[k + 1].owners == states[k].owners && states[k + 1].minifigOwners == states[k].minifigOwners
  {
    assert StepAt(states, events, k);
  }

  lemma OwnersStand(states: seq<Session>, events: seq<Event>, j: nat, i: nat)
    requires Run(states, events) && i < |events| && OwnersFrom(states, events, j, i)
    requires !events[i].Inventories? && states[i + 1].owners != map[]
    ensures OwnersFrom(states, events, j, i + 1)
  {
    OwnersStep(states, events, i);
  }

  lemma {:induction false} OwnersComeFromACommit(states: seq<Session>, events: seq<Event>, i: nat)
    requires Run(states, events) && i < |states|
    requires states[0].owners == map[] && states[i].owners != map[]
    ensures exists j :: OwnersFrom(states, events, j, i)
    decreases i
  {
    OwnersStep(states, events, i - 1);
    if !events[i - 1].Inventories? {
      OwnersComeFromACommit(states, events, i - 1);
      var j :| OwnersFrom(states, events, j, i - 1);
      OwnersStand(states, events, j, i - 1);
    }
  }

  /**
   Every run of a fresh importer over a catalog that obeys the schema: a set never has two preferred revisions,
   preferred ones are active, and owner maps in use come from a committed inventories import.
   */
  lemma FreshRuns(c: Catalog, states: seq<Session>, events: seq<Event>, i: nat)
    requires CatalogOk(c) && Run(states, events) && states[0] == Session(map[], map[], c) && i < |states|
    ensures var table := states[i].catalog.revisions;
      && (forall a, b | IsPreferred(table, a) && IsPreferred(table, b) && table[a].setId == table[b].setId :: a == b)
      && (forall a | IsPreferred(table, a) :: table[a].active)
    ensures states[i].owners != map[] ==> exists j :: OwnersFrom(states, events, j, i)
  {
    assert MinifigOwned(map[]) == {};
    InvariantOverRuns(states, events);
    assert Invariant(states[i]);
    if states[i].owners != map[] {
      OwnersComeFromACommit(states, events, i);
    }
  }

  /** A parts import that succeeds classified its rows with the maps of a committed inventories import. */
  lemma PartsRunOnCommittedOwners(states: seq<Session>, events: seq<Event>, i: nat)
    requires Run(states, events) && i < |events| && states[0].owners == map[]
    requires events[i].Children? && events[i].kind.Parts?
    ensures exists j :: OwnersFrom(states, events, j, i)
  {
    assert StepAt(states, events, i);
    OwnersComeFromACommit(states, events, i);
  }

  /**
   In any reachable session an inventory owned by a minifig has its minifig, and one owned by a set has its
   active revision: the importer's "Unresolved Minifig inventory owner" branch never runs, and with owner
   maps present an inventory is unknown exactly when the inventories file did not name it as a set's.
   */
  lemma OwnersResolve(s: Session, kind: Kind, inventory: Text)
    requires Invariant(s) && inventory in s.owners
    ensures var x := ContextOf(kind, s.catalog, s.owners, s.minifigOwners);
      && (s.owners[inventory] <==> inventory in x.revisions)
      && (!s.owners[inventory] <==> inventory in x.minifigOwners)
  {
    assert inventory in SetOwned(s.owners) <==> s.owners[inventory];
    assert inventory in MinifigOwned(s.owners) <==> !s.owners[inventory];
  }

  // ----- Importing the same inventories twice

  /** Right after a successful import the same file is accepted again, whatever the order of its lines met before. */
  lemma SameFileAccepted(c: Catalog, rows: seq<InventoryRow>, s: Session, r: Result)
    requires CatalogOk(c) && InventoriesCommitted(c, rows, s.catalog, s.owners, s.minifigOwners, r)
    ensures InventoriesFileOk(s.catalog, rows) && NeverBlocked(s.catalog, rows)
    ensures FileSlots(s.catalog, rows) == FileSlots(c, rows)
  {
    forall i | 0 <= i < |rows| ensures RowOk(s.catalog, rows[i]) {
      assert RowOk(c, rows[i]);
    }
    forall i, j | 0 <= i < j < |rows| ensures !SameInventory(s.catalog, rows[i], rows[j]) {
      assert !SameInventory(c, rows[i], rows[j]);
    }
    SlotsDependOnNames(c, s.catalog, rows);
    forall i | 0 <= i < |rows| ensures Unblocked(s.catalog, rows, i) {
      if rows[i].setNumber in c.sets {
        LineUnblocked(c, rows, s, r, i);
      }
    }
    UnblockedIff(s.catalog, rows, |rows|);
  }

  lemma {:induction false} SlotsDependOnNames(c: Catalog, d: Catalog, rows: seq<InventoryRow>)
    requires c.sets == d.sets && c.minifigs == d.minifigs
    ensures FileSlots(c, rows) == FileSlots(d, rows)
  {
    if rows != [] {
      SlotsDependOnNames(c, d, rows[..|rows| - 1]);
    }
  }

  /** The slots of `some` are slots of `all`. */
  ghost predicate Extends(some: map<Text, Slot>, all: map<Text, Slot>) {
    some.Keys <= all.Keys && forall e | e in some :: some[e] == all[e]
  }

  lemma OneSlotMore(c: Catalog, rows: seq<InventoryRow>, i: nat)
    requires InventoriesImport.LinesOk(c, rows) && i < |rows|
    ensures Extends(FileSlots(c, rows[..i]), FileSlots(c, rows[..i + 1]))
  {
    InventoriesImport.LinesOkPrefix(c, rows, i + 1);
    InventoriesImport.LinesOkPrefix(c, rows, i);
    InventoriesImport.NextLine(c, rows, i);
    InventoriesImport.AcceptableIff(c, rows, i);
    if rows[i].setNumber in c.sets {
      InventoriesImport.NotYetSeen(c, rows, i);
    }
  }

  /** A prefix of the file names some of its slots, each with the value the whole file gives it. */
  lemma {:induction false} SlotsOfPrefix(c: Catalog, rows: seq<InventoryRow>, i: nat)
    requires InventoriesImport.LinesOk(c, rows) && i <= |rows|
    ensures Extends(FileSlots(c, rows[..i]), FileSlots(c, rows))
    decreases |rows| - i
  {
    if i == |rows| {
      assert rows[..i] == rows;
    } else {
      OneSlotMore(c, rows, i);
      SlotsOfPrefix(c, rows, i + 1);
    }
  }

  lemma LineUnblocked(c: Catalog, rows: seq<InventoryRow>, s: Session, r: Result, i: nat)
    requires CatalogOk(c) && InventoriesCommitted(c, rows, s.catalog, s.owners, s.minifigOwners, r)
    requires i < |rows| && rows[i].setNumber in c.sets
    ensures Unblocked(s.catalog, rows, i)
  {
    var slots, after := FileSlots(c, rows), s.catalog.revisions;
    SlotsDependOnNames(c, s.catalog, rows[..i]);
    SlotsOfPrefix(c, rows, i);
    SlotsOfPrefix(c, rows, i + 1);
    InventoriesImport.LinesOkPrefix(c, rows, i + 1);
    InventoriesImport.NextLine(c, rows, i);
    var done, e := FileSlots(c, rows[..i]), rows[i].external;
    var slot := Slot(c.sets[rows[i].setNumber], rows[i].version.value);
    assert e in FileSlots(c, rows[..i + 1]);
    assert slots[e] == slot;
    StoredSlotsDoNotBlock(c.revisions, slots, after, c.nextRevision, s.catalog.nextRevision, done, e);
  }

  lemma StoredSlotsDoNotBlock(
    before: Revisions, slots: map<Text, Slot>, after: Revisions, fresh0: int, fresh1: int,
    done: map<Text, Slot>, e: Text)
    requires Snapshot(before, slots, after, fresh0, fresh1) && RevisionsOk(after, fresh1)
    requires e in slots && done.Keys <= slots.Keys && forall d | d in done :: done[d] == slots[d]
    ensures !Blocked(after, done, e, slots[e])
  {
    assert Applied(before, e, slots[e], after[e], fresh0, fresh1);
    forall other | (other in after || other in done) && other != e
      ensures !Clash(
        Standing(after, done, other), Revision(0, slots[e].setId, slots[e].version, true, after[e].preferred))
    {
      assert other in after;
      assert !Clash(after[other], after[e]);
      if other in done {
        assert Applied(before, other, slots[other], after[other], fresh0, fresh1);
      }
    }
  }

  /** Importing the same inventories again changes no revision and counts every set line as unchanged. */
  lemma SameFileChangesNothing(c: Catalog, rows: seq<InventoryRow>, s: Session, r: Result, t: Session, r2: Result)
    requires CatalogOk(c) && InventoriesCommitted(c, rows, s.catalog, s.owners, s.minifigOwners, r)
    requires InventoriesCommitted(s.catalog, rows, t.catalog, t.owners, t.minifigOwners, r2)
    ensures t.catalog.revisions == s.catalog.revisions
    ensures r2.inserted == r2.updated == r2.deactivated == 0 && r2.kept == r2.setInventoryRows
  {
    SlotsDependOnNames(c, s.catalog, rows);
    var slots, now := FileSlots(c, rows), s.catalog.revisions;
    StoredIsSame(c.revisions, slots, now, c.nextRevision, s.catalog.nextRevision);
    SnapshotOfSame(now, slots, t.catalog.revisions, s.catalog.nextRevision, t.catalog.nextRevision);
    NothingCounted(now, slots, |rows|, r2);
  }

  lemma NothingCounted(now: Revisions, slots: map<Text, Slot>, rows: int, r: Result)
    requires InventoriesCounted(now, slots, rows, r) && slots.Keys <= now.Keys
    requires SameSet(now, slots) == slots.Keys && Retired(now, slots.Keys) == {}
    ensures r.inserted == r.updated == r.deactivated == 0 && r.kept == r.setInventoryRows
  {
    assert slots.Keys - now.Keys == {};
  }

  lemma StoredIsSame(before: Revisions, slots: map<Text, Slot>, after: Revisions, fresh0: int, fresh1: int)
    requires Snapshot(before, slots, after, fresh0, fresh1)
    ensures SameSet(after, slots) == slots.Keys && Retired(after, slots.Keys) == {}
  {
    forall e | e in slots ensures Same(after, slots, e) {
      assert Applied(before, e, slots[e], after[e], fresh0, fresh1);
    }
  }

  lemma SnapshotOfSame(now: Revisions, slots: map<Text, Slot>, after: Revisions, fresh0: int, fresh1: int)
    requires RevisionsOk(now, fresh0) && Snapshot(now, slots, after, fresh0, fresh1)
    requires SameSet(now, slots) == slots.Keys && Retired(now, slots.Keys) == {}
    ensures after == now
  {
    forall e | e in now ensures after[e] == now[e] {
      if e in slots {
        assert e in SameSet(now, slots);
        assert Applied(now, e, slots[e], after[e], fresh0, fresh1);
      } else {
        assert e !in Retired(now, slots.Keys);
      }
    }
  }

  /**
   A file that is fine on its own can still be refused: two stored revisions of one set whose versions the
   file exchanges. UNIQUE(provider, set, version) is tested row by row, so the first line already fails.
   */
  lemma ExchangedVersionsRefused()
    ensures exists c: Catalog, rows :: CatalogOk(c) && InventoriesFileOk(c, rows) && !NeverBlocked(c, rows)
  {
    var a, b, n := Text("10"), Text("11"), Text("s1");
    var table := map[a := Revision(1, 7, 1, true, false), b := Revision(2, 7, 2, true, false)];
    var c := Catalog(map[n := 7], map[], map[], map[], table, 3, map[], map[], map[], map[]);
    var rows := [InventoryRow(true, a, Some(2), n), InventoryRow(true, b, Some(1), n)];
    assert a.characters == "10" && b.characters == "11" && "10"[1] != "11"[1];
    assert a != EMPTY && b != EMPTY;
    var nothing := FileSlots(c, rows[..0]);
    assert b in c.revisions && b != a && Clash(Standing(c.revisions, nothing, b), Revision(0, 7, 2, true, false));
    assert Blocked(c.revisions, nothing, a, Slot(7, 2));
    assert !Unblocked(c, rows, 0);
    UnblockedIff(c, rows, |rows|);
    assert InventoriesFileOk(c, rows);
  }

  // ----- Elections

  ghost predicate IsPreferred(table: Revisions, e: Text) {
    e in table && table[e].preferred
  }

  /** `w` is the one preferred revision of the set: active, and no active revision of the set has a higher version. */
  ghost predicate SoleWinner(table: Revisions, setId: int, w: Text) {
    && IsPreferred(table, w) && table[w].active && table[w].setId == setId
    && (forall v | IsPreferred(table, v) && table[v].setId == setId :: v == w)
    && forall f | f in table && table[f].active && table[f].setId == setId :: table[f].version <= table[w].version
  }

  /**
   After the election a set with an active revision has exactly one preferred one, its highest active version,
   and a set without any has none.
   */
  lemma ElectionIsExact(table: Revisions, next: int, setId: int)
    requires RevisionsOk(table, next)
    ensures (exists e :: e in table && table[e].active && table[e].setId == setId) ==>
      exists w :: SoleWinner(ElectedTable(table), setId, w)
    ensures (forall e | e in table && table[e].setId == setId :: !table[e].active) ==>
      forall v | IsPreferred(ElectedTable(table), v) :: ElectedTable(table)[v].setId != setId
  {
    if e :| e in table && table[e].active && table[e].setId == setId {
      var w := OneWinner(table, next, e);
    }
  }

  lemma OneWinner(table: Revisions, next: int, e: Text) returns (w: Text)
    requires RevisionsOk(table, next) && e in table && table[e].active
    ensures SoleWinner(ElectedTable(table), table[e].setId, w)
  {
    w := Highest(table, e, set f | f in table && table[f].active && table[f].setId == table[e].setId);
    var after := ElectedTable(table);
    assert Elected(table, w);
    assert IsPreferred(after, w);
    forall v | IsPreferred(after, v) && after[v].setId == table[e].setId ensures v == w {
      assert Elected(table, v);
      assert v != w ==> !Clash(table[v], table[w]);
    }
  }

  lemma {:induction false} Highest(table: Revisions, e: Text, some: set<Text>) returns (w: Text)
    requires e in some && some <= table.Keys
    ensures w in some && forall f | f in some :: table[f].version <= table[w].version
    decreases some
  {
    w := e;
    var rest := some - {e};
    if rest != {} {
      var f := Any(rest);
      var v := Highest(table, f, rest);
      if table[v].version > table[e].version {
        w := v;
      }
    }
    forall g | g in some ensures table[g].version <= table[w].version {
      assert g == e || g in rest;
    }
  }

  /** Holding the election again changes nothing and reports no change. */
  lemma SecondElectionChangesNothing(c: Catalog, d: Catalog, r: Result, d2: Catalog, r2: Result)
    requires ElectionCommitted(c, d, r) && ElectionCommitted(d, d2, r2)
    ensures d2 == d && r2.preferredChanged == 0
  {
    var table, after := c.revisions, d.revisions;
    forall e | e in after ensures Elected(after, e) <==> Elected(table, e) {
      assert forall other | other in after :: after[other] == table[other].(preferred := after[other].preferred);
    }
    assert Winners(after) == Preferred(after);
    assert Winners(after) - Preferred(after) == {} && Preferred(after) - Winners(after) == {};
    assert ElectedTable(after) == after;
  }

  // ----- The importer itself

  /** A call of the importer; an input of None is a file that cannot be used. */
  datatype Call =
    | ImportInventories(lines: Option<seq<InventoryRow>>, faults: Faults)
    | ImportChildren(kind: Kind, rows: Option<seq<ChildRow>>, faults: Faults)
    | SelectPreferred(faults: Faults)

  /** The event is what may have become of the call. */
  predicate OutcomeOf(call: Call, e: Event) {
    match call
    case ImportInventories(lines, _) => e.InventoriesFailed? || (e.Inventories? && lines == Some(e.lines))
    case ImportChildren(kind, rows, _) => e.ChildrenFailed? || (e.Children? && kind == e.kind && rows == Some(e.rows))
    case SelectPreferred(_) => e.ElectionFailed? || e.Election?
  }

  /** What the importer and its database hold. */
  ghost function SessionOf(importer: CompositionImporter.Importer, db: Connection<Catalog>): Session
    reads importer, db
  {
    Session(importer.inventoryOwners, importer.minifigInventoryOwners, db.committed)
  }

  /** One call of the importer is one event. */
  method Perform(importer: CompositionImporter.Importer, db: Connection<Catalog>, call: Call) returns (ghost e: Event)
    requires db.Idle() && CatalogOk(db.committed)
    modifies importer, db
    ensures db.Idle() && OutcomeOf(call, e)
    ensures Next(old(SessionOf(importer, db)), e, SessionOf(importer, db))
  {
    match call {
      case ImportInventories(lines, faults) =>
        var r := importer.ImportInventories(lines, db, faults);
        e := if r.success then Inventories(lines.value, r) else InventoriesFailed;
      case ImportChildren(kind, rows, faults) =>
        var r := importer.ImportChildren(kind, rows, db, faults);
        e := if r.success then Children(kind, rows.value, r) else ChildrenFailed;
      case SelectPreferred(faults) =>
        var r := importer.SelectPreferredRevisions(db, faults);
        e := if r.success then Election(r) else ElectionFailed;
    }
  }

  lemma StepStays(states: seq<Session>, events: seq<Event>, e: Event, t: Session, i: nat)
    requires i < |events| < |states| && StepAt(states, events, i)
    ensures StepAt(states + [t], events + [e], i)
  {
    var states', events' := states + [t], events + [e];
    assert states'[i] == states[i] && states'[i + 1] == states[i + 1] && events'[i] == events[i];
  }

  lemma LastStep(states: seq<Session>, events: seq<Event>, e: Event, t: Session)
    requires |states| == |events| + 1 && Next(states[|events|], e, t)
    ensures StepAt(states + [t], events + [e], |events|)
  {
    var states', events', n := states + [t], events + [e], |events|;
    assert states'[n] == states[n] && states'[n + 1] == t && events'[n] == e;
  }

  lemma RunGrows(states: seq<Session>, events: seq<Event>, e: Event, t: Session)
    requires Run(states, events) && Next(states[|events|], e, t)
    ensures Run(states + [t], events + [e])
  {
    LastStep(states, events, e, t);
    forall i: nat | i < |events| + 1 ensures StepAt(states + [t], events + [e], i) {
      if i < |events| {
        StepStays(states, events, e, t, i);
      }
    }
  }

  /**
   Any calls of a new importer, each with its own files and mishaps, are a run from a fresh session, so all that
   is proved of runs holds of the importer and its database.
   */
  method Drive(db: Connection<Catalog>, calls: seq<Call>)
    returns (importer: CompositionImporter.Importer, ghost states: seq<Session>, ghost events: seq<Event>)
    requires db.Idle() && CatalogOk(db.committed)
    modifies db
    ensures fresh(importer) && db.Idle()
    ensures Run(states, events) && |events| == |calls|
    ensures forall i | 0 <= i < |calls| :: OutcomeOf(calls[i], events[i])
    ensures states[0] == Session(map[], map[], old(db.committed)) && states[|calls|] == SessionOf(importer, db)
    ensures forall i | 0 <= i < |states| :: Invariant(states[i])
  {
    importer := new CompositionImporter.Importer();
    states, events := [SessionOf(importer, db)], [];
    assert MinifigOwned(map[]) == {};
    var n := 0;
    while n < |calls|
      invariant n == |events| <= |calls| && db.Idle() && Run(states, events)
      invariant forall i | 0 <= i < n :: OutcomeOf(calls[i], events[i])
      invariant states[0] == Session(map[], map[], old(db.committed)) && states[n] == SessionOf(importer, db)
      invariant Invariant(states[n]) && fresh(importer)
    {
      ghost var e := Perform(importer, db, calls[n]);
      ghost var t := SessionOf(importer, db);
      NextKeepsInvariant(states[n], e, t);
      RunGrows(states, events, e, t);
      states, events, n := states + [t], events + [e], n + 1;
    }
    InvariantOverRuns(states, events);
  }
}
