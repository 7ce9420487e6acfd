/**
 What importChildren does inside its transaction: upsert every line, then delete the rows of the named
 owners that no line mentioned.
 */
module ChildrenImport {
  import opened Wrappers
  import opened Sql
  import opened CompositionModel
  import opened Counting

  // ----- The lines of the file

  ghost function Targets(x: Context, rows: seq<ChildRow>): set<Target> {
    if rows == [] then {} else Targets(x, rows[..|rows| - 1]) + {Resolve(x, rows[|rows| - 1])}
  }

  /** Every line resolves, and no two lines are about the same stored row. */
  ghost predicate LinesOk(x: Context, rows: seq<ChildRow>) {
    rows == [] || (
      var last, before := rows[|rows| - 1], rows[..|rows| - 1];
      LinesOk(x, before) && !Resolve(x, last).Rejected? && Resolve(x, last) !in Targets(x, before))
  }

  lemma {:induction false} TargetsMeaning(x: Context, rows: seq<ChildRow>, t: Target)
    ensures t in Targets(x, rows) <==> exists i :: 0 <= i < |rows| && Resolve(x, rows[i]) == t
  {
    if rows != [] {
      var before := rows[..|rows| - 1];
      TargetsMeaning(x, before, t);
      assert forall i | 0 <= i < |before| :: before[i] == rows[i];
    }
  }

  lemma {:induction false} LinesOkMeaning(x: Context, rows: seq<ChildRow>)
    ensures LinesOk(x, rows) <==>
      (forall i | 0 <= i < |rows| :: !Resolve(x, rows[i]).Rejected?)
      && (forall i, j | 0 <= i < j < |rows| :: Resolve(x, rows[i]) != Resolve(x, rows[j]))
  {
    if rows != [] {
      var last, before := rows[|rows| - 1], rows[..|rows| - 1];
      LinesOkMeaning(x, before);
      TargetsMeaning(x, before, Resolve(x, last));
      assert forall i | 0 <= i < |before| :: before[i] == rows[i];
    }
  }

  lemma {:induction false} LinesOkPrefix(x: Context, rows: seq<ChildRow>, i: nat)
    requires i <= |rows| && LinesOk(x, rows)
    ensures LinesOk(x, rows[..i])
    decreases |rows|
  {
    if i < |rows| {
      LinesOkPrefix(x, rows[..|rows| - 1], i);
      assert rows[..|rows| - 1][..i] == rows[..i];
    } else {
      assert rows[..i] == rows;
    }
  }

  /** A target has been seen exactly when its row is among the lines read. */
  lemma {:induction false} SeenIffLine(x: Context, rows: seq<ChildRow>, k: Key)
    ensures SetTarget(k) in Targets(x, rows) <==> k in SetLines(x, rows)
    ensures MinifigTarget(k) in Targets(x, rows) <==> k in MinifigLines(x, rows)
  {
    if rows != [] {
      SeenIffLine(x, rows[..|rows| - 1], k);
    }
  }

  lemma NextLine(x: Context, rows: seq<ChildRow>, i: nat)
    requires i < |rows|
    ensures var t := Resolve(x, rows[i]);
      var line := Line(if rows[i].quantity.Some? then rows[i].quantity.value else 0, rows[i].image);
      && Targets(x, rows[..i + 1]) == Targets(x, rows[..i]) + {t}
      && LinesOk(x, rows[..i + 1]) == (LinesOk(x, rows[..i]) && !t.Rejected? && t !in Targets(x, rows[..i]))
      && SetLines(x, rows[..i + 1]) ==
           (if t.SetTarget? then SetLines(x, rows[..i])[t.key := line] else SetLines(x, rows[..i]))
      && MinifigLines(x, rows[..i + 1]) ==
           (if t.MinifigTarget? then MinifigLines(x, rows[..i])[t.key := line] else MinifigLines(x, rows[..i]))
  {
    assert rows[..i + 1][..i] == rows[..i];
    assert rows[..i + 1][i] == rows[i];
  }

  // ----- Upserting one line

  /** INSERT OR IGNORE of a line for a row not yet written by this import, then UPDATE where it differs. */
  lemma UpsertStep(before: Children, lines: map<Key, Line>, k: Key, line: Line)
    requires k !in lines
    ensures Upserted(before, lines[k := line]) ==
      if k in before && !Differs(before[k], line) then Upserted(before, lines)
      else Upserted(before, lines)[k := Entry(line.quantity, line.image)]
    ensures k in Upserted(before, lines) <==> k in before
    ensures k in before ==> Upserted(before, lines)[k] == before[k]
  {
    AddKey(lines, k, line);
  }

  lemma MinifigUpsertStep(before: MinifigParts, lines: map<Key, Line>, k: Key, line: Line)
    requires k !in lines
    ensures MinifigsUpserted(before, lines[k := line]) ==
      if k in before && !MinifigDiffers(before[k], line) then MinifigsUpserted(before, lines)
      else MinifigsUpserted(before, lines)[k := MinifigPart(line.quantity, PROVIDER, GLOBAL_SOURCE)]
    ensures k in MinifigsUpserted(before, lines) <==> k in before
    ensures k in before ==> MinifigsUpserted(before, lines)[k] == before[k]
  {
    AddKey(lines, k, line);
    var a, b := MinifigsUpserted(before, lines[k := line]), MinifigsUpserted(before, lines);
    if k in before && !MinifigDiffers(before[k], line) {
      assert a[k] == b[k];
    }
  }

  lemma CountKept(before: Children, lines: map<Key, Line>, k: Key, line: Line)
    requires k !in lines
    ensures |Kept(before, lines[k := line])| ==
      |Kept(before, lines)| + if k in before && !Differs(before[k], line) then 1 else 0
  {
    if k in before && !Differs(before[k], line) {
      assert Kept(before, lines[k := line]) == Kept(before, lines) + {k};
    } else {
      assert Kept(before, lines[k := line]) == Kept(before, lines);
    }
  }

  lemma CountMinifigsKept(before: MinifigParts, lines: map<Key, Line>, k: Key, line: Line)
    requires k !in lines
    ensures |MinifigsKept(before, lines[k := line])| ==
      |MinifigsKept(before, lines)| + if k in before && !MinifigDiffers(before[k], line) then 1 else 0
  {
    if k in before && !MinifigDiffers(before[k], line) {
      assert MinifigsKept(before, lines[k := line]) == MinifigsKept(before, lines) + {k};
    } else {
      assert MinifigsKept(before, lines[k := line]) == MinifigsKept(before, lines);
    }
  }

  lemma TouchStep(lines: map<Key, Line>, k: Key, line: Line)
    ensures Touched(lines[k := line]) == Touched(lines) + {k.owner}
  {
    AddKey(lines, k, line);
    assert k in lines[k := line];
    forall o | o in Touched(lines) ensures o in Touched(lines[k := line]) {
      var j :| j in lines && j.owner == o;
      assert j in lines[k := line];
    }
  }

  // ----- The row loop

  datatype State = State(seen: set<Target>, affected: set<int>, table: Children, figures: MinifigParts, r: Result)

  ghost predicate Progress(x: Context, table: Children, figures: MinifigParts, rows: seq<ChildRow>, s: State) {
    var lines, figureLines := SetLines(x, rows), MinifigLines(x, rows);
    && LinesOk(x, rows)
    && s.seen == Targets(x, rows)
    && s.affected == Touched(lines)
    && s.table == Upserted(table, lines)
    && s.figures == MinifigsUpserted(figures, figureLines)
    && !s.r.success && s.r.rowsRead == |rows| && s.r.replaced == 0
    && ChildrenCounted(table, figures, lines, figureLines, s.r)
  }

  lemma NoLines(table: Children)
    ensures var none: map<Key, Line> := map[];
      && Upserted(table, none) == table && Touched(none) == {}
      && Kept(table, none) == {} && none.Keys - table.Keys == {}
  {
  }

  lemma NoMinifigLines(figures: MinifigParts)
    ensures var none: map<Key, Line> := map[];
      MinifigsUpserted(figures, none) == figures && MinifigsKept(figures, none) == {} && none.Keys - figures.Keys == {}
  {
  }

  lemma NothingRead(x: Context, table: Children, figures: MinifigParts)
    ensures Progress(x, table, figures, [], State({}, {}, table, figures, NO_RESULT))
  {
    NoLines(table);
    NoMinifigLines(figures);
  }

  function CountLine(r: Result, known: bool, kept: bool): Result {
    r.(rowsRead := r.rowsRead + 1,
       inserted := if known then r.inserted else r.inserted + 1,
       kept := if kept then r.kept + 1 else r.kept,
       updated := if known && !kept then r.updated + 1 else r.updated)
  }

  lemma SetLineCounts(
    table: Children, figures: MinifigParts, lines: map<Key, Line>, figureLines: map<Key, Line>, r: Result,
    k: Key, line: Line)
    requires ChildrenCounted(table, figures, lines, figureLines, r) && k !in lines
    ensures ChildrenCounted(table, figures, lines[k := line], figureLines,
      CountLine(r, k in table, k in table && !Differs(table[k], line)).(setInventoryRows := r.setInventoryRows + 1))
  {
    CountKept(table, lines, k, line);
    AddKey(lines, k, line);
    AddNew(lines.Keys, k);
    AddOutside(table.Keys, lines.Keys, k);
  }

  lemma MinifigLineCounts(
    table: Children, figures: MinifigParts, lines: map<Key, Line>, figureLines: map<Key, Line>, r: Result,
    k: Key, line: Line)
    requires ChildrenCounted(table, figures, lines, figureLines, r) && k !in figureLines
    ensures ChildrenCounted(table, figures, lines, figureLines[k := line],
      CountLine(r, k in figures, k in figures && !MinifigDiffers(figures[k], line))
        .(minifigPartRows := r.minifigPartRows + 1))
  {
    CountMinifigsKept(figures, figureLines, k, line);
    AddKey(figureLines, k, line);
    AddNew(figureLines.Keys, k);
    AddOutside(figures.Keys, figureLines.Keys, k);
  }

  /** The state after a line that lands in the set table. */
  function AfterSetLine(s: State, k: Key, line: Line): State {
    var known, kept := k in s.table, k in s.table && !Differs(s.table[k], line);
    State(s.seen + {SetTarget(k)}, s.affected + {k.owner},
          if kept then s.table else s.table[k := Entry(line.quantity, line.image)], s.figures,
          CountLine(s.r, known, kept).(setInventoryRows := s.r.setInventoryRows + 1))
  }

  /** The state after a line that lands in minifig_catalog_part. */
  function AfterMinifigLine(s: State, k: Key, line: Line): State {
    var known, kept := k in s.figures, k in s.figures && !MinifigDiffers(s.figures[k], line);
    State(s.seen + {MinifigTarget(k)}, s.affected, s.table,
          if kept then s.figures else s.figures[k := MinifigPart(line.quantity, PROVIDER, GLOBAL_SOURCE)],
          CountLine(s.r, known, kept).(minifigPartRows := s.r.minifigPartRows + 1))
  }

  lemma SetLineStep(x: Context, table: Children, figures: MinifigParts, rows: seq<ChildRow>, i: nat, s: State)
    requires i < |rows| && Progress(x, table, figures, rows[..i], s)
    requires Resolve(x, rows[i]).SetTarget? && Resolve(x, rows[i]) !in s.seen
    ensures Progress(x, table, figures, rows[..i + 1],
      AfterSetLine(s, Resolve(x, rows[i]).key, Line(rows[i].quantity.value, rows[i].image)))
  {
    var lines := SetLines(x, rows[..i]);
    var k, line := Resolve(x, rows[i]).key, Line(rows[i].quantity.value, rows[i].image);
    NextLine(x, rows, i);
    SeenIffLine(x, rows[..i], k);
    UpsertStep(table, lines, k, line);
    TouchStep(lines, k, line);
    SetLineCounts(table, figures, lines, MinifigLines(x, rows[..i]), s.r, k, line);
  }

  lemma MinifigLineStep(x: Context, table: Children, figures: MinifigParts, rows: seq<ChildRow>, i: nat, s: State)
    requires i < |rows| && Progress(x, table, figures, rows[..i], s)
    requires Resolve(x, rows[i]).MinifigTarget? && Resolve(x, rows[i]) !in s.seen
    ensures Progress(x, table, figures, rows[..i + 1],
      AfterMinifigLine(s, Resolve(x, rows[i]).key, Line(rows[i].quantity.value, rows[i].image)))
  {
    var lines := MinifigLines(x, rows[..i]);
    var k, line := Resolve(x, rows[i]).key, Line(rows[i].quantity.value, rows[i].image);
    NextLine(x, rows, i);
    SeenIffLine(x, rows[..i], k);
    MinifigUpsertStep(figures, lines, k, line);
    MinifigLineCounts(table, figures, SetLines(x, rows[..i]), lines, s.r, k, line);
  }

  lemma RefusedLine(x: Context, rows: seq<ChildRow>, i: nat)
    requires i < |rows| && LinesOk(x, rows[..i])
    requires Resolve(x, rows[i]).Rejected? || Resolve(x, rows[i]) in Targets(x, rows[..i])
    ensures !ChildFileOk(x, rows)
  {
    NextLine(x, rows, i);
    LinesOkMeaning(x, rows);
    if LinesOk(x, rows) {
      LinesOkPrefix(x, rows, i + 1);
    }
  }

  /** One line of the file. */
  method ReadLine(
    x: Context, ghost table: Children, ghost figures: MinifigParts, rows: seq<ChildRow>, i: nat, s: State, fault: bool)
    returns (read: bool, s': State)
    requires i < |rows| && Progress(x, table, figures, rows[..i], s)
    ensures read ==> Progress(x, table, figures, rows[..i + 1], s')
    ensures !read ==> fault || !ChildFileOk(x, rows)
  {
    var row := rows[i];
    var t := Resolve(x, row);
    if t.Rejected? || t in s.seen {
      RefusedLine(x, rows, i);
      return false, s;
    }
    if fault {
      return false, s;
    }
    var line := Line(row.quantity.value, row.image);
    if t.MinifigTarget? {
      MinifigLineStep(x, table, figures, rows, i, s);
      return true, AfterMinifigLine(s, t.key, line);
    }
    SetLineStep(x, table, figures, rows, i, s);
    return true, AfterSetLine(s, t.key, line);
  }

  /** The first `i` lines are read and nobody asked to stop. */
  ghost predicate Going(
    x: Context, table: Children, figures: MinifigParts, rows: seq<ChildRow>, i: nat, s: State, faults: Faults)
    requires i <= |rows|
  {
    Progress(x, table, figures, rows[..i], s) && faults.NeverStops(1024, i)
  }

  /** One pass through the row loop; the token is looked at with every 1024th row. */
  method NextRow(
    x: Context, table: Children, figures: MinifigParts, rows: seq<ChildRow>, i: nat, s: State, faults: Faults)
    returns (more: bool, s': State)
    requires i < |rows| && Going(x, table, figures, rows, i, s, faults)
    ensures more ==> Going(x, table, figures, rows, i + 1, s', faults)
    ensures faults.Quiet() && ChildFileOk(x, rows) ==> more
  {
    if faults.StopsAt(1024, i + 1) {
      return false, s;
    }
    more, s' := ReadLine(x, table, figures, rows, i, s, faults.statement(i));
  }

  method ReadLines(x: Context, table: Children, figures: MinifigParts, rows: seq<ChildRow>, faults: Faults)
    returns (read: bool, s: State)
    ensures read ==> Progress(x, table, figures, rows, s) && faults.NeverStops(1024, |rows|)
    ensures faults.Quiet() && ChildFileOk(x, rows) ==> read
  {
    s := State({}, {}, table, figures, NO_RESULT);
    NothingRead(x, table, figures);
    var i := 0;
    assert rows[..0] == [];
    while i < |rows|
      invariant 0 <= i <= |rows| && Going(x, table, figures, rows, i, s, faults)
    {
      read, s := NextRow(x, table, figures, rows, i, s, faults);
      if !read {
        return;
      }
      i := i + 1;
    }
    assert rows[..|rows|] == rows;
    read := true;
  }

  // ----- Deleting what the file no longer mentions

  /** The rows of owners in `done` that were not written by this import. */
  ghost function Unseen(table: Children, seen: set<Target>, done: set<int>): set<Key> {
    set k | k in table && k.owner in done && SetTarget(k) !in seen
  }

  lemma UnseenStep(table: Children, seen: set<Target>, done: set<int>, owner: int)
    requires owner !in done
    ensures var gone, left := Unseen(table, seen, done), table - Unseen(table, seen, done);
      var more := set k | k in left && k.owner == owner && SetTarget(k) !in seen;
      && Unseen(table, seen, done + {owner}) == gone + more
      && |Unseen(table, seen, done + {owner})| == |gone| + |more|
      && left - more == table - Unseen(table, seen, done + {owner})
  {
    var gone, left := Unseen(table, seen, done), table - Unseen(table, seen, done);
    var more := set k | k in left && k.owner == owner && SetTarget(k) !in seen;
    assert Unseen(table, seen, done + {owner}) == gone + more;
  }

  /** The DELETE statements over the set table, one for each revision the file names. */
  method CleanUp(table: Children, seen: set<Target>, affected: set<int>, faults: Faults, from: nat)
    returns (ok: bool, left: Children, removed: int)
    ensures faults.Quiet() ==> ok
    ensures ok ==> left == table - Unseen(table, seen, affected) && removed == |Unseen(table, seen, affected)|
  {
    var pending, at := affected, from;
    left, removed := table, 0;
    assert Unseen(table, seen, {}) == {} && table - {} == table;
    assert affected - pending == {};
    while pending != {}
      invariant pending <= affected
      invariant left == table - Unseen(table, seen, affected - pending)
      invariant removed == |Unseen(table, seen, affected - pending)|
      decreases pending
    {
      if faults.statement(at) {
        return false, left, removed;
      }
      ghost var some := Any(pending);
      var owner: int :| owner in pending;
      UnseenStep(table, seen, affected - pending, owner);
      assert affected - (pending - {owner}) == (affected - pending) + {owner};
      var doomed := set k | k in left && k.owner == owner && SetTarget(k) !in seen;
      left, removed := left - doomed, removed + |doomed|;
      pending, at := pending - {owner}, at + 1;
    }
    assert affected - pending == affected;
    ok := true;
  }

  function UnseenMinifigs(figures: MinifigParts, seen: set<Target>, owned: set<int>): set<Key> {
    set k | k in figures && figures[k].provider == PROVIDER && k.owner in owned && MinifigTarget(k) !in seen
  }

  lemma CleanedIsReconciled(table: Children, lines: map<Key, Line>, seen: set<Target>)
    requires forall k :: SetTarget(k) in seen <==> k in lines
    ensures var now := Upserted(table, lines);
      && Unseen(now, seen, Touched(lines)) == Stale(table, lines)
      && now - Stale(table, lines) == Reconciled(table, lines)
  {
    var now := Upserted(table, lines);
    forall k ensures k in Unseen(now, seen, Touched(lines)) <==> k in Stale(table, lines) {
      assert SetTarget(k) in seen <==> k in lines;
    }
  }

  lemma CleanedMinifigsAreReconciled(figures: MinifigParts, lines: map<Key, Line>, seen: set<Target>, owned: set<int>)
    requires forall k :: MinifigTarget(k) in seen <==> k in lines
    ensures var now := MinifigsUpserted(figures, lines);
      && UnseenMinifigs(now, seen, owned) == MinifigStale(figures, lines, owned)
      && now - MinifigStale(figures, lines, owned) == MinifigsReconciled(figures, lines, owned)
  {
    var now := MinifigsUpserted(figures, lines);
    forall k ensures k in UnseenMinifigs(now, seen, owned) <==> k in MinifigStale(figures, lines, owned) {
      assert MinifigTarget(k) in seen <==> k in lines;
    }
  }

  /** The one DELETE over minifig_catalog_part, which only the parts import runs. */
  method CleanUpMinifigs(kind: Kind, figures: MinifigParts, seen: set<Target>, owned: set<int>, fault: bool)
    returns (ok: bool, left: MinifigParts, removed: int)
    requires !kind.Parts? ==> owned == {}
    ensures !fault ==> ok
    ensures ok ==> left == figures - UnseenMinifigs(figures, seen, owned)
    ensures ok ==> removed == |UnseenMinifigs(figures, seen, owned)|
  {
    if !kind.Parts? {
      assert UnseenMinifigs(figures, seen, {}) == {} && figures - {} == figures;
      return true, figures, 0;
    }
    if fault {
      return false, figures, 0;
    }
    var doomed := UnseenMinifigs(figures, seen, owned);
    return true, figures - doomed, |doomed|;
  }

  /** Everything importChildren does inside its transaction, given the maps it loaded before. */
  method ReadChildren(x: Context, c: Catalog, rows: seq<ChildRow>, faults: Faults)
    returns (read: bool, after: Catalog, r: Result)
    requires x == ContextOf(x.kind, c, x.owners, x.minifigOwners)
    requires x.kind.Parts? ==> x.owners != map[]
    ensures !r.success
    ensures read ==> ChildrenCommitted(x.kind, c, x.owners, x.minifigOwners, rows, after, r)
    ensures read ==> faults.NeverStops(1024, |rows|) && !faults.cancelled(|rows| + 1)
    ensures faults.Quiet() && ChildFileOk(x, rows) ==> read
  {
    var table, figures := TableOf(x.kind, c), c.minifigParts;
    var all, s := ReadLines(x, table, figures, rows, faults);
    after, r := c, s.r.(success := false);
    if !all || faults.cancelled(|rows| + 1) || |rows| == 0 {
      return false, after, r;
    }
    var ok, left, removed := CleanUp(s.table, s.seen, s.affected, faults, |rows|);
    if !ok {
      return false, after, r;
    }
    var owned := if x.kind.Parts? then x.minifigOwners.Values else {};
    var cleaned, keptFigures, removedFigures :=
      CleanUpMinifigs(x.kind, s.figures, s.seen, owned, faults.statement(|rows| + |s.affected|));
    if !cleaned {
      return false, after, r;
    }
    Finished(x, c, rows, s, left, keptFigures, removed, removedFigures);
    return true, WithTable(x.kind, c, left, keptFigures), r.(replaced := removed + removedFigures);
  }

  lemma Finished(
    x: Context, c: Catalog, rows: seq<ChildRow>, s: State, left: Children, figures: MinifigParts,
    removed: int, removedFigures: int)
    requires x == ContextOf(x.kind, c, x.owners, x.minifigOwners)
    requires rows != [] && (x.kind.Parts? ==> x.owners != map[])
    requires Progress(x, TableOf(x.kind, c), c.minifigParts, rows, s)
    requires left == s.table - Unseen(s.table, s.seen, s.affected) && removed == |Unseen(s.table, s.seen, s.affected)|
    requires var doomed := UnseenMinifigs(s.figures, s.seen, if x.kind.Parts? then x.minifigOwners.Values else {});
      figures == s.figures - doomed && removedFigures == |doomed|
    ensures ChildrenCommitted(x.kind, c, x.owners, x.minifigOwners, rows,
      WithTable(x.kind, c, left, figures), s.r.(success := false, replaced := removed + removedFigures))
  {
    var owned := if x.kind.Parts? then x.minifigOwners.Values else {};
    forall k
      ensures SetTarget(k) in s.seen <==> k in SetLines(x, rows)
      ensures MinifigTarget(k) in s.seen <==> k in MinifigLines(x, rows)
    {
      SeenIffLine(x, rows, k);
    }
    CleanedIsReconciled(TableOf(x.kind, c), SetLines(x, rows), s.seen);
    CleanedMinifigsAreReconciled(c.minifigParts, MinifigLines(x, rows), s.seen, owned);
    LinesOkMeaning(x, rows);
  }
}
