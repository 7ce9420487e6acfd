/**
 The tables behind the global inventory import and what each import step does to them, as relations on
 whole states. `CompositionImporter` proves that the imperative importer meets these relations;
 `CompositionRuns` proves what holds over any sequence of them.

 The revision table holds the Rebrickable rows only: every statement of the importer names that provider,
 and both UNIQUE rules are per provider.
 */
module CompositionModel {
  import opened Wrappers

  /** One row of set_inventory_revision; the table is keyed by external_inventory_id. */
  datatype Revision = Revision(id: int, setId: int, version: int, active: bool, preferred: bool)
  type Revisions = map<Text, Revision>

  /** The UNIQUE key shared by the child tables; color and spare are 0 and false outside parts. */
  datatype Key = Key(owner: int, identity: int, color: int, spare: bool)
  datatype Entry = Entry(quantity: int, image: Option<Text>)
  type Children = map<Key, Entry>

  datatype MinifigPart = MinifigPart(quantity: int, provider: Text, source: Text)
  type MinifigParts = map<Key, MinifigPart>

  datatype Catalog = Catalog(
    sets: map<Text, int>,
    minifigs: map<Text, int>,
    parts: map<Text, int>,
    colors: map<Text, int>,
    revisions: Revisions,
    nextRevision: int,
    setParts: Children,
    setMinifigs: Children,
    containedSets: Children,
    minifigParts: MinifigParts)

  datatype Result = Result(
    success: bool,
    rowsRead: int,
    inserted: int,
    updated: int,
    kept: int,
    replaced: int,
    deactivated: int,
    preferredChanged: int,
    setInventoryRows: int,
    recognizedMinifigInventories: int,
    minifigPartRows: int)

  const NO_RESULT := Result(false, 0, 0, 0, 0, 0, 0, 0, 0, 0, 0)
  const GLOBAL_SOURCE := Text("Global inventory_parts.csv")

  // ----- The rules the schema enforces on set_inventory_revision

  /** Two rows that the schema would not let stand side by side. */
  predicate Clash(a: Revision, b: Revision) {
    a.setId == b.setId && (a.version == b.version || (a.preferred && b.preferred))
  }

  /** Whether writing `row` for `external` would break UNIQUE(set, version) or the one-preferred index. */
  predicate Refused(table: Revisions, external: Text, row: Revision) {
    exists other | other in table && other != external :: Clash(table[other], row)
  }

  /** What holds of the revision table between imports. */
  ghost predicate RevisionsOk(table: Revisions, next: int) {
    && (forall a | a in table :: table[a].id < next && (table[a].preferred ==> table[a].active))
    && (forall a, b | a in table && b in table && a != b ::
          table[a].id != table[b].id && !Clash(table[a], table[b]))
  }

  ghost predicate CatalogOk(c: Catalog) {
    && Injective(c.sets)
    && RevisionsOk(c.revisions, c.nextRevision)
  }

  // ----- inventories.csv

  /** A data row; `version` is None where the text is not an integer. */
  datatype InventoryRow = InventoryRow(
    wellFormed: bool, external: Text, version: Option<int>, setNumber: Text)

  /** The row read as a set inventory. */
  datatype Slot = Slot(setId: int, version: int)

  predicate RowOk(c: Catalog, row: InventoryRow) {
    && row.wellFormed
    && row.external != EMPTY
    && row.version.Some?
    && row.version.value >= 0
    && ((row.setNumber in c.sets) != (row.setNumber in c.minifigs))
  }

  predicate SameInventory(c: Catalog, a: InventoryRow, b: InventoryRow) {
    || a.external == b.external
    || (a.setNumber in c.sets && a.setNumber == b.setNumber && a.version == b.version)
  }

  /** What the importer asks of the file itself, before any stored row is looked at. */
  ghost predicate InventoriesFileOk(c: Catalog, rows: seq<InventoryRow>) {
    && rows != []
    && (forall i | 0 <= i < |rows| :: RowOk(c, rows[i]))
    && (forall i, j | 0 <= i < j < |rows| :: !SameInventory(c, rows[i], rows[j]))
  }

  /** The set inventories named by the file. */
  ghost function FileSlots(c: Catalog, rows: seq<InventoryRow>): map<Text, Slot> {
    if rows == [] then map[]
    else
      var last, before := rows[|rows| - 1], FileSlots(c, rows[..|rows| - 1]);
      if RowOk(c, last) && last.setNumber in c.sets
      then before[last.external := Slot(c.sets[last.setNumber], last.version.value)]
      else before
  }

  /** True for a set inventory, false for a minifig inventory. */
  ghost function FileOwners(c: Catalog, rows: seq<InventoryRow>): map<Text, bool> {
    if rows == [] then map[]
    else
      var last := rows[|rows| - 1];
      FileOwners(c, rows[..|rows| - 1])[last.external := last.setNumber in c.sets]
  }

  ghost function FileMinifigOwners(c: Catalog, rows: seq<InventoryRow>): map<Text, int> {
    if rows == [] then map[]
    else
      var last, before := rows[|rows| - 1], FileMinifigOwners(c, rows[..|rows| - 1]);
      if last.setNumber !in c.sets && last.setNumber in c.minifigs
      then before[last.external := c.minifigs[last.setNumber]]
      else before
  }

  /** The row that stands for `external` once its line of the file has been applied. */
  ghost predicate Applied(before: Revisions, external: Text, slot: Slot, after: Revision, fresh0: int, fresh1: int) {
    && after.setId == slot.setId && after.version == slot.version && after.active
    && (if external in before
        then after.id == before[external].id && after.preferred == before[external].preferred
        else fresh0 <= after.id < fresh1 && !after.preferred)
  }

  /** The table part-way: rows of `slots` applied, every other row as it was. */
  ghost predicate Overlaid(before: Revisions, slots: map<Text, Slot>, after: Revisions, fresh0: int, fresh1: int) {
    && after.Keys == before.Keys + slots.Keys
    && (forall e | e in slots :: Applied(before, e, slots[e], after[e], fresh0, fresh1))
    && (forall e | e in before && e !in slots :: after[e] == before[e])
  }

  /** The table after the whole file: named rows applied, unnamed rows retired but kept. */
  ghost predicate Snapshot(before: Revisions, slots: map<Text, Slot>, after: Revisions, fresh0: int, fresh1: int) {
    && after.Keys == before.Keys + slots.Keys
    && (forall e | e in slots :: Applied(before, e, slots[e], after[e], fresh0, fresh1))
    && (forall e | e in before && e !in slots ::
          after[e] == before[e].(active := false, preferred := false))
  }

  /** What row `other` says about its set while rows of `done` have been applied. */
  ghost function Standing(before: Revisions, done: map<Text, Slot>, other: Text): Revision
    requires other in before || other in done
  {
    if other in done then
      Revision(0, done[other].setId, done[other].version, true, other in before && before[other].preferred)
    else before[other]
  }

  /** Applying `slot` for `external` now would break a UNIQUE rule. */
  ghost predicate Blocked(before: Revisions, done: map<Text, Slot>, external: Text, slot: Slot) {
    exists other :: (other in before || other in done) && other != external
      && Clash(Standing(before, done, other),
               Revision(0, slot.setId, slot.version, true, external in before && before[external].preferred))
  }

  /** Line `i` of the file does not meet a row it would clash with at the moment it is applied. */
  ghost predicate Unblocked(c: Catalog, rows: seq<InventoryRow>, i: nat)
    requires i < |rows|
  {
    rows[i].setNumber in c.sets && rows[i].version.Some? ==>
      !Blocked(c.revisions, FileSlots(c, rows[..i]), rows[i].external,
               Slot(c.sets[rows[i].setNumber], rows[i].version.value))
  }

  ghost predicate UnblockedTo(c: Catalog, rows: seq<InventoryRow>, n: nat)
    requires n <= |rows|
  {
    n == 0 || (UnblockedTo(c, rows, n - 1) && Unblocked(c, rows, n - 1))
  }

  ghost predicate NeverBlocked(c: Catalog, rows: seq<InventoryRow>) {
    UnblockedTo(c, rows, |rows|)
  }

  lemma {:induction false} UnblockedIff(c: Catalog, rows: seq<InventoryRow>, n: nat)
    requires n <= |rows|
    ensures UnblockedTo(c, rows, n) <==> forall i | 0 <= i < n :: Unblocked(c, rows, i)
  {
    if n > 0 {
      UnblockedIff(c, rows, n - 1);
    }
  }

  /** The stored row already says what the file says. */
  ghost predicate Same(before: Revisions, slots: map<Text, Slot>, e: Text) {
    && e in before && e in slots
    && before[e].active && before[e].setId == slots[e].setId && before[e].version == slots[e].version
  }

  ghost function SameSet(before: Revisions, slots: map<Text, Slot>): set<Text> {
    set e | e in slots && Same(before, slots, e)
  }

  /** The active rows that a file naming `named` leaves behind. */
  function Retired(before: Revisions, named: set<Text>): set<Text> {
    set e | e in before && before[e].active && e !in named
  }

  ghost predicate InventoriesCounted(before: Revisions, slots: map<Text, Slot>, rows: int, r: Result) {
    && r.rowsRead == rows
    && r.setInventoryRows == |slots.Keys|
    && r.recognizedMinifigInventories == rows - |slots.Keys|
    && r.inserted == |slots.Keys - before.Keys|
    && r.kept == |SameSet(before, slots)|
    && r.updated == |slots.Keys| - r.inserted - r.kept
    && r.deactivated == |Retired(before, slots.Keys)|
  }

  /** The whole effect of a successful inventories import on the stored tables and the owner maps. */
  ghost predicate InventoriesCommitted(
    before: Catalog, rows: seq<InventoryRow>, after: Catalog,
    owners: map<Text, bool>, minifigOwners: map<Text, int>, r: Result)
  {
    var slots := FileSlots(before, rows);
    && InventoriesFileOk(before, rows)
    && NeverBlocked(before, rows)
    && after == before.(revisions := after.revisions, nextRevision := after.nextRevision)
    && Snapshot(before.revisions, slots, after.revisions, before.nextRevision, after.nextRevision)
    && RevisionsOk(after.revisions, after.nextRevision)
    && owners == FileOwners(before, rows)
    && minifigOwners == FileMinifigOwners(before, rows)
    && InventoriesCounted(before.revisions, slots, |rows|, r)
  }

  // ----- inventory_parts.csv, inventory_minifigs.csv, inventory_sets.csv

  datatype Kind = Parts | Minifigs | Sets

  /** A data row of a child file; None where a number or flag does not parse, or an empty image binds as NULL. */
  datatype ChildRow = ChildRow(
    wellFormed: bool, inventory: Text, identity: Text, color: Text,
    spare: Option<bool>, quantity: Option<int>, image: Option<Text>)

  /** The lookup tables a child import reads before its transaction. */
  datatype Context = Context(
    kind: Kind, revisions: map<Text, int>, identities: map<Text, int>, colors: map<Text, int>,
    owners: map<Text, bool>, minifigOwners: map<Text, int>)

  datatype Line = Line(quantity: int, image: Option<Text>)
  datatype Target = Rejected | SetTarget(key: Key) | MinifigTarget(key: Key)

  function ActiveIds(table: Revisions): map<Text, int> {
    map e | e in table && table[e].active :: table[e].id
  }

  function ContextOf(kind: Kind, c: Catalog, owners: map<Text, bool>, minifigOwners: map<Text, int>): Context {
    var identities := match kind case Parts => c.parts case Minifigs => c.minifigs case Sets => c.sets;
    Context(kind, ActiveIds(c.revisions), identities, if kind.Parts? then c.colors else map[], owners, minifigOwners)
  }

  /** Which stored row a line of the file is about, or that the line is refused. */
  function Resolve(x: Context, row: ChildRow): Target {
    if !row.wellFormed || row.quantity.None? || row.quantity.value <= 0 || (x.kind.Parts? && row.spare.None?) then
      Rejected
    else if row.inventory in x.owners && !x.owners[row.inventory] then
      if !x.kind.Parts? || row.inventory !in x.minifigOwners
         || row.identity !in x.identities || row.color !in x.colors
      then Rejected
      else MinifigTarget(Key(x.minifigOwners[row.inventory], x.identities[row.identity],
                             x.colors[row.color], row.spare.value))
    else if (x.owners != map[] && row.inventory !in x.owners) || row.inventory !in x.revisions
            || row.identity !in x.identities || (x.kind.Parts? && row.color !in x.colors) then
      Rejected
    else if x.kind.Parts? then
      SetTarget(Key(x.revisions[row.inventory], x.identities[row.identity], x.colors[row.color], row.spare.value))
    else
      SetTarget(Key(x.revisions[row.inventory], x.identities[row.identity], 0, false))
  }

  ghost predicate ChildFileOk(x: Context, rows: seq<ChildRow>) {
    && rows != []
    && (x.kind.Parts? ==> x.owners != map[])
    && (forall i | 0 <= i < |rows| :: !Resolve(x, rows[i]).Rejected?)
    && (forall i, j | 0 <= i < j < |rows| :: Resolve(x, rows[i]) != Resolve(x, rows[j]))
  }

  /** The lines of the file that land in the set table, by the row they are about. */
  ghost function SetLines(x: Context, rows: seq<ChildRow>): map<Key, Line> {
    if rows == [] then map[]
    else
      var last, before := rows[|rows| - 1], SetLines(x, rows[..|rows| - 1]);
      var t := Resolve(x, last);
      if t.SetTarget? then before[t.key := Line(last.quantity.value, last.image)] else before
  }

  /** The lines of the file that land in minifig_catalog_part. */
  ghost function MinifigLines(x: Context, rows: seq<ChildRow>): map<Key, Line> {
    if rows == [] then map[]
    else
      var last, before := rows[|rows| - 1], MinifigLines(x, rows[..|rows| - 1]);
      var t := Resolve(x, last);
      if t.MinifigTarget? then before[t.key := Line(last.quantity.value, last.image)] else before
  }

  /** SQL text comparison with COALESCE(image_url, ''); comparing with NULL is never true. */
  predicate Differs(stored: Entry, line: Line) {
    || stored.quantity != line.quantity
    || (line.image.Some? && (if stored.image.Some? then stored.image.value else EMPTY) != line.image.value)
  }

  predicate MinifigDiffers(stored: MinifigPart, line: Line) {
    stored.quantity != line.quantity || stored.provider != PROVIDER || stored.source != GLOBAL_SOURCE
  }

  ghost function Upserted(before: Children, lines: map<Key, Line>): Children {
    map k | k in before.Keys + lines.Keys ::
      if k !in lines || (k in before && !Differs(before[k], lines[k])) then before[k]
      else Entry(lines[k].quantity, lines[k].image)
  }

  ghost function MinifigsUpserted(before: MinifigParts, lines: map<Key, Line>): MinifigParts {
    map k | k in before.Keys + lines.Keys ::
      if k in lines then MinifigPart(lines[k].quantity, PROVIDER, GLOBAL_SOURCE) else before[k]
  }

  ghost function Touched(lines: map<Key, Line>): set<int> {
    set k | k in lines :: k.owner
  }

  /** Rows of a revision named in the file that the file does not mention. */
  ghost function Stale(before: Children, lines: map<Key, Line>): set<Key> {
    set k | k in before && k !in lines && k.owner in Touched(lines)
  }

  /** Rebrickable rows of an owned minifig that the file does not mention. */
  ghost function MinifigStale(before: MinifigParts, lines: map<Key, Line>, owned: set<int>): set<Key> {
    set k | k in before && k !in lines && k.owner in owned && before[k].provider == PROVIDER
  }

  /** What the set table must be after the file: the file's rows for every revision it names. */
  ghost function Reconciled(before: Children, lines: map<Key, Line>): Children {
    map k | k in (before.Keys + lines.Keys) - Stale(before, lines) :: Upserted(before, lines)[k]
  }

  ghost function MinifigsReconciled(before: MinifigParts, lines: map<Key, Line>, owned: set<int>): MinifigParts {
    map k | k in (before.Keys + lines.Keys) - MinifigStale(before, lines, owned) :: MinifigsUpserted(before, lines)[k]
  }

  function TableOf(kind: Kind, c: Catalog): Children {
    match kind case Parts => c.setParts case Minifigs => c.setMinifigs case Sets => c.containedSets
  }

  function WithTable(kind: Kind, c: Catalog, table: Children, figures: MinifigParts): (r: Catalog)
    ensures TableOf(kind, r) == table && r.minifigParts == figures
    ensures r.revisions == c.revisions && r.nextRevision == c.nextRevision && r.sets == c.sets
  {
    match kind
    case Parts => c.(setParts := table, minifigParts := figures)
    case Minifigs => c.(setMinifigs := table, minifigParts := figures)
    case Sets => c.(containedSets := table, minifigParts := figures)
  }

  /** Rows the import finds stored and leaves alone. */
  ghost function Kept(before: Children, lines: map<Key, Line>): set<Key> {
    set k | k in lines && k in before && !Differs(before[k], lines[k])
  }

  ghost function MinifigsKept(before: MinifigParts, lines: map<Key, Line>): set<Key> {
    set k | k in lines && k in before && !MinifigDiffers(before[k], lines[k])
  }

  ghost predicate ChildrenCounted(
    table: Children, figures: MinifigParts, lines: map<Key, Line>, figureLines: map<Key, Line>, r: Result)
  {
    && r.setInventoryRows == |lines.Keys|
    && r.minifigPartRows == |figureLines.Keys|
    && r.inserted == |lines.Keys - table.Keys| + |figureLines.Keys - figures.Keys|
    && r.kept == |Kept(table, lines)| + |MinifigsKept(figures, figureLines)|
    && r.updated == |lines.Keys| + |figureLines.Keys| - r.inserted - r.kept
  }

  /** The whole effect of a successful child import. */
  ghost predicate ChildrenCommitted(
    kind: Kind, before: Catalog, owners: map<Text, bool>, minifigOwners: map<Text, int>,
    rows: seq<ChildRow>, after: Catalog, r: Result)
  {
    var x := ContextOf(kind, before, owners, minifigOwners);
    var lines, figureLines := SetLines(x, rows), MinifigLines(x, rows);
    var owned := if kind.Parts? then minifigOwners.Values else {};
    && ChildFileOk(x, rows)
    && after == WithTable(kind, before,
                          Reconciled(TableOf(kind, before), lines),
                          MinifigsReconciled(before.minifigParts, figureLines, owned))
    && r.rowsRead == |rows|
    && ChildrenCounted(TableOf(kind, before), before.minifigParts, lines, figureLines, r)
    && r.replaced == |Stale(TableOf(kind, before), lines)| + |MinifigStale(before.minifigParts, figureLines, owned)|
  }

  // ----- The preferred election

  /** The active revision of its set that no other active revision outranks. */
  predicate Elected(table: Revisions, e: Text)
    requires e in table
  {
    table[e].active
    && forall other | other in table && table[other].active && table[other].setId == table[e].setId ::
         table[other].version <= table[e].version
  }

  ghost function ElectedTable(table: Revisions): Revisions {
    map e | e in table :: table[e].(preferred := Elected(table, e))
  }

  ghost function Winners(table: Revisions): set<Text> {
    set e | e in table && Elected(table, e)
  }

  ghost function Preferred(table: Revisions): set<Text> {
    set e | e in table && table[e].preferred
  }

  ghost predicate ElectionCommitted(before: Catalog, after: Catalog, r: Result) {
    && after == before.(revisions := ElectedTable(before.revisions))
    && r.preferredChanged == |Winners(before.revisions) - Preferred(before.revisions)|
                             + |Preferred(before.revisions) - Winners(before.revisions)|
  }
}
