/**
 The theme catalog importer: read themes.csv, validate its parent relation, then assign ids, rewrite
 parents, retire what the file dropped and synchronise activity.
 */
module ThemeImporter {
  import opened Wrappers
  import opened Sql
  import opened Counting
  import opened ThemeGraph
  import opened ThemeModel
  import ThemeTheorems

  // ----- Reading the file

  /** A data line; `wellFormed` says that it scanned into exactly three fields. */
  datatype Line = Line(wellFormed: bool, id: Text, name: Text, parent: Text)

  predicate LineOk(line: Line) {
    line.wellFormed && line.id != EMPTY && line.name != EMPTY
  }

  ghost predicate LinesOk(lines: seq<Line>) {
    && (forall i | 0 <= i < |lines| :: LineOk(lines[i]))
    && (forall i, j | 0 <= i < j < |lines| :: lines[i].id != lines[j].id)
  }

  /** The file as a map from theme id to name and parent. */
  ghost function RowsOf(lines: seq<Line>): Rows {
    if lines == [] then map[]
    else
      var last := lines[|lines| - 1];
      RowsOf(lines[..|lines| - 1])[last.id := Row(last.name, last.parent)]
  }

  /** Every test importFile makes before it looks at the database. */
  ghost predicate FileOk(lines: seq<Line>) {
    && lines != []
    && LinesOk(lines)
    && ParentsPresent(RowsOf(lines))
    && exists rank :: Ranked(RowsOf(lines), rank)
  }

  lemma {:induction false} RowsAreTheLines(lines: seq<Line>, e: Text)
    ensures e in RowsOf(lines) <==> exists i :: 0 <= i < |lines| && lines[i].id == e
  {
    if lines != [] {
      var before := lines[..|lines| - 1];
      RowsAreTheLines(before, e);
      assert forall i | 0 <= i < |before| :: before[i] == lines[i];
    }
  }

  lemma NextLine(lines: seq<Line>, i: nat)
    requires i < |lines|
    ensures RowsOf(lines[..i + 1]) == RowsOf(lines[..i])[lines[i].id := Row(lines[i].name, lines[i].parent)]
    ensures LinesOk(lines[..i]) ==>
      (LinesOk(lines[..i + 1]) <==> LineOk(lines[i]) && lines[i].id !in RowsOf(lines[..i]))
  {
    assert lines[..i + 1][..i] == lines[..i];
    RowsAreTheLines(lines[..i], lines[i].id);
    if LinesOk(lines[..i]) {
      LinesOkStep(lines[..i], lines[i]);
      assert lines[..i + 1] == lines[..i] + [lines[i]];
    }
  }

  lemma LinesOkStep(before: seq<Line>, line: Line)
    requires LinesOk(before)
    ensures LinesOk(before + [line]) <==> LineOk(line) && !exists i :: 0 <= i < |before| && before[i].id == line.id
  {
    var longer := before + [line];
    assert longer[|before|] == line && forall i | 0 <= i < |before| :: longer[i] == before[i];
  }

  lemma LinesOkPrefix(lines: seq<Line>, i: nat)
    requires i <= |lines| && LinesOk(lines)
    ensures LinesOk(lines[..i])
  {
    assert forall k | 0 <= k < i :: lines[..i][k] == lines[k];
  }

  /** The first `i` lines are read and nobody asked to stop. */
  ghost predicate Going(lines: seq<Line>, i: nat, rows: Rows, faults: Faults)
    requires i <= |lines|
  {
    LinesOk(lines[..i]) && rows == RowsOf(lines[..i]) && i == |rows.Keys| && faults.NeverStops(256, i)
  }

  lemma GoesOn(lines: seq<Line>, i: nat, rows: Rows, faults: Faults)
    requires i < |lines| && Going(lines, i, rows, faults) && !faults.StopsAt(256, i + 1)
    requires LineOk(lines[i]) && lines[i].id !in rows
    ensures Going(lines, i + 1, rows[lines[i].id := Row(lines[i].name, lines[i].parent)], faults)
  {
    NextLine(lines, i);
    AddKey(rows, lines[i].id, Row(lines[i].name, lines[i].parent));
  }

  lemma BadLine(lines: seq<Line>, i: nat, rows: Rows, faults: Faults)
    requires i < |lines| && Going(lines, i, rows, faults)
    requires !LineOk(lines[i]) || lines[i].id in rows
    ensures !LinesOk(lines)
  {
    NextLine(lines, i);
    if LinesOk(lines) {
      LinesOkPrefix(lines, i + 1);
    }
  }

  method ReadLines(lines: seq<Line>, faults: Faults) returns (ok: bool, rows: Rows, count: int)
    ensures ok ==> LinesOk(lines) && rows == RowsOf(lines) && count == |lines| == |rows.Keys|
    ensures ok ==> faults.NeverStops(256, |lines|)
    ensures faults.Quiet() && LinesOk(lines) ==> ok
  {
    rows, count := map[], 0;
    for i := 0 to |lines|
      invariant count == i && Going(lines, i, rows, faults)
    {
      var line := lines[i];
      count := count + 1;
      if faults.StopsAt(256, count) {
        return false, rows, count;
      }
      if !LineOk(line) || line.id in rows {
        BadLine(lines, i, rows, faults);
        return false, rows, count;
      }
      GoesOn(lines, i, rows, faults);
      rows := rows[line.id := Row(line.name, line.parent)];
    }
    assert lines[..|lines|] == lines;
    ok := true;
  }

  predicate MissingParent(rows: Rows) {
    exists e | e in rows :: rows[e].parent != EMPTY && rows[e].parent !in rows
  }

  lemma NoEmptyId(lines: seq<Line>)
    requires LinesOk(lines)
    ensures EMPTY !in RowsOf(lines)
  {
    RowsAreTheLines(lines, EMPTY);
  }

  lemma {:induction false} RowOfLine(lines: seq<Line>, i: nat)
    requires LinesOk(lines) && i < |lines|
    ensures lines[i].id in RowsOf(lines) && RowsOf(lines)[lines[i].id] == Row(lines[i].name, lines[i].parent)
  {
    if i < |lines| - 1 {
      RowOfLine(lines[..|lines| - 1], i);
      assert lines[|lines| - 1].id != lines[i].id;
    }
  }

  /** Every parent named in the file is the id of one of its lines. */
  ghost predicate ParentsListed(lines: seq<Line>) {
    forall i | 0 <= i < |lines| ::
      lines[i].parent == EMPTY || exists j :: 0 <= j < |lines| && lines[j].id == lines[i].parent
  }

  /** A number for the ids of the lines that falls from every theme to its parent. */
  ghost predicate Falls(lines: seq<Line>, rank: map<Text, nat>) {
    forall i, j | 0 <= i < |lines| && 0 <= j < |lines| && lines[j].id == lines[i].parent ::
      lines[i].id in rank && lines[j].id in rank && rank[lines[j].id] < rank[lines[i].id]
  }

  lemma ParentsListedMeaning(lines: seq<Line>)
    requires LinesOk(lines)
    ensures ParentsPresent(RowsOf(lines)) <==> ParentsListed(lines)
  {
    NoEmptyId(lines);
    var rows := RowsOf(lines);
    forall e ensures e in rows <==> exists i :: 0 <= i < |lines| && lines[i].id == e {
      RowsAreTheLines(lines, e);
    }
    forall i | 0 <= i < |lines|
      ensures lines[i].id in rows && rows[lines[i].id] == Row(lines[i].name, lines[i].parent)
    {
      RowOfLine(lines, i);
    }
  }

  lemma RankedFalls(lines: seq<Line>, rank: map<Text, nat>)
    requires LinesOk(lines) && Ranked(RowsOf(lines), rank)
    ensures Falls(lines, rank)
  {
    forall i, j | 0 <= i < |lines| && 0 <= j < |lines| && lines[j].id == lines[i].parent
      ensures lines[i].id in rank && lines[j].id in rank && rank[lines[j].id] < rank[lines[i].id]
    {
      RowOfLine(lines, i);
      RowOfLine(lines, j);
    }
  }

  lemma FallsIsRanked(lines: seq<Line>, rank: map<Text, nat>) returns (same: map<Text, nat>)
    requires LinesOk(lines) && Falls(lines, rank)
    ensures Ranked(RowsOf(lines), same)
  {
    var rows := RowsOf(lines);
    same := map e | e in rows :: if e in rank then rank[e] else 0;
    forall e | e in rows && rows[e].parent in rows ensures same[rows[e].parent] < same[e] {
      RowsAreTheLines(lines, e);
      RowsAreTheLines(lines, rows[e].parent);
      var i :| 0 <= i < |lines| && lines[i].id == e;
      var j :| 0 <= j < |lines| && lines[j].id == rows[e].parent;
      RowOfLine(lines, i);
    }
  }

  /** The file test over the fields of the lines. */
  lemma FileOkByFields(lines: seq<Line>)
    ensures FileOk(lines) <==>
      && lines != []
      && (forall i | 0 <= i < |lines| :: lines[i].wellFormed && lines[i].id != EMPTY && lines[i].name != EMPTY)
      && (forall i, j | 0 <= i < j < |lines| :: lines[i].id != lines[j].id)
      && ParentsListed(lines) && exists rank :: Falls(lines, rank)
  {
    assert LinesOk(lines) <==>
      (forall i | 0 <= i < |lines| :: lines[i].wellFormed && lines[i].id != EMPTY && lines[i].name != EMPTY)
      && (forall i, j | 0 <= i < j < |lines| :: lines[i].id != lines[j].id);
    if LinesOk(lines) {
      ParentsListedMeaning(lines);
      if rank :| Ranked(RowsOf(lines), rank) {
        RankedFalls(lines, rank);
      }
      if rank :| Falls(lines, rank) {
        var same := FallsIsRanked(lines, rank);
      }
    }
  }

  /** Everything importFile decides before it looks at the database. */
  method ReadFile(lines: seq<Line>, faults: Faults) returns (ok: bool, rows: Rows)
    ensures ok ==> FileOk(lines) && rows == RowsOf(lines) && |rows.Keys| == |lines|
    ensures ok ==> faults.NeverStops(256, |lines|)
    ensures faults.Quiet() && FileOk(lines) ==> ok
  {
    var count;
    ok, rows, count := ReadLines(lines, faults);
    if !ok || count == 0 || MissingParent(rows) {
      return false, rows;
    }
    NoEmptyId(lines);
    var cyclic := HasCycle(rows);
    ok := !cyclic;
  }

  // ----- Ids, names and identities

  /** What the first loop has written, for the themes in `ids`. */
  datatype Work = Work(catalog: map<int, Theme>, next: int, identities: map<Label, Identity>, ids: map<Text, int>)

  ghost predicate IdentitiesWritten(t: Themes, w: Work) {
    && (forall l :: l in w.identities <==> l in t.identities || (l.provider == PROVIDER && l.external in w.ids))
    && (forall e | e in w.ids :: w.identities[Mine(e)] == Identity(w.ids[e], true))
    && (forall l | l in t.identities && !(l.provider == PROVIDER && l.external in w.ids) ::
          w.identities[l] == t.identities[l])
  }

  ghost predicate NamesWritten(t: Themes, rows: Rows, w: Work)
    requires w.ids.Keys <= rows.Keys
  {
    && (forall id :: id in w.catalog <==> id in t.catalog || Named(w.ids, id))
    && (forall e | e in w.ids :: w.ids[e] in w.catalog && w.catalog[w.ids[e]] ==
          Theme(rows[e].name, if w.ids[e] in t.catalog then t.catalog[w.ids[e]].parent else 0, true))
    && (forall id | id in t.catalog && !Named(w.ids, id) :: w.catalog[id] == t.catalog[id])
  }

  ghost predicate Written(t: Themes, rows: Rows, w: Work) {
    && w.ids.Keys <= rows.Keys
    && Assigned(t, w.ids, w.next)
    && IdentitiesWritten(t, w)
    && NamesWritten(t, rows, w)
  }

  function Write(w: Work, e: Text, name: Text, id: int, parent: int, next: int): Work {
    Work(w.catalog[id := Theme(name, parent, true)], next, w.identities[Mine(e) := Identity(id, true)], w.ids[e := id])
  }

  lemma FreshId(t: Themes, w: Work, e: Text, id: int, next: int)
    requires Valid(t) && Assigned(t, w.ids, w.next) && e !in w.ids
    requires if Known(t, e) then id == t.identities[Mine(e)].catalogId && next == w.next
             else id == w.next && next == w.next + 1
    ensures !Named(w.ids, id) && Assigned(t, w.ids[e := id], next)
    ensures id in t.catalog <==> Known(t, e)
  {
    forall f | f in w.ids ensures w.ids[f] != id {
      if Known(t, f) && Known(t, e) {
        assert Mine(f) != Mine(e);
      }
    }
  }

  lemma NamedStep(ids: map<Text, int>, e: Text, id: int, other: int)
    requires e !in ids
    ensures Named(ids[e := id], other) <==> Named(ids, other) || other == id
  {
    if Named(ids, other) {
      var f :| f in ids && ids[f] == other;
      assert f in ids[e := id] && ids[e := id][f] == other;
    }
    if other == id {
      assert e in ids[e := id] && ids[e := id][e] == other;
    }
  }

  lemma WriteStep(t: Themes, rows: Rows, w: Work, e: Text, id: int, parent: int, next: int)
    requires Valid(t) && Written(t, rows, w) && e in rows && e !in w.ids
    requires if Known(t, e) then id == t.identities[Mine(e)].catalogId && next == w.next
             else id == w.next && next == w.next + 1
    requires parent == if Known(t, e) then t.catalog[id].parent else 0
    ensures Written(t, rows, Write(w, e, rows[e].name, id, parent, next))
  {
    FreshId(t, w, e, id, next);
    IdentitiesStep(t, w, e, id, rows[e].name, parent, next);
    NamesStep(t, rows, w, e, id, parent, next);
  }

  lemma IdentitiesStep(t: Themes, w: Work, e: Text, id: int, name: Text, parent: int, next: int)
    requires IdentitiesWritten(t, w) && e !in w.ids
    ensures IdentitiesWritten(t, Write(w, e, name, id, parent, next))
  {
    forall l: Label | l.provider == PROVIDER && l.external == e ensures l == Mine(e) {}
  }

  lemma NamesStep(t: Themes, rows: Rows, w: Work, e: Text, id: int, parent: int, next: int)
    requires w.ids.Keys <= rows.Keys && NamesWritten(t, rows, w) && e in rows && e !in w.ids && !Named(w.ids, id)
    requires parent == if id in t.catalog then t.catalog[id].parent else 0
    ensures NamesWritten(t, rows, Write(w, e, rows[e].name, id, parent, next))
  {
    var v := Write(w, e, rows[e].name, id, parent, next);
    forall other ensures Named(v.ids, other) <==> Named(w.ids, other) || other == id {
      NamedStep(w.ids, e, id, other);
    }
    forall f | f in w.ids ensures w.ids[f] != id && v.catalog[v.ids[f]] == w.catalog[w.ids[f]] {
      assert Named(w.ids, w.ids[f]);
    }
  }

  ghost function Renamed(t: Themes, rows: Rows, done: set<Text>): set<Text>
    requires Valid(t) && done <= rows.Keys
  {
    set e | e in done && Known(t, e) && t.catalog[t.identities[Mine(e)].catalogId].name != rows[e].name
  }

  /** The counters the first loop keeps. */
  datatype Tally = Tally(renamed: set<Text>, reactivated: set<Text>, inserted: int)

  ghost predicate Tallied(t: Themes, rows: Rows, done: set<Text>, y: Tally)
    requires Valid(t) && done <= rows.Keys
  {
    && y.renamed == Renamed(t, rows, done)
    && y.reactivated == Reactivated(t, done)
    && y.inserted == |New(t, done)|
  }

  function Count(t: Themes, rows: Rows, y: Tally, e: Text): Tally
    requires e in rows && (Known(t, e) ==> t.identities[Mine(e)].catalogId in t.catalog)
  {
    if Known(t, e) then
      var stored := t.identities[Mine(e)];
      Tally(if t.catalog[stored.catalogId].name != rows[e].name then y.renamed + {e} else y.renamed,
            if stored.active then y.reactivated else y.reactivated + {e}, y.inserted)
    else
      y.(inserted := y.inserted + 1)
  }

  lemma CountNew(t: Themes, done: set<Text>, e: Text)
    requires e !in done
    ensures |New(t, done + {e})| == |New(t, done)| + if Known(t, e) then 0 else 1
  {
    if Known(t, e) {
      assert New(t, done + {e}) == New(t, done);
    } else {
      assert New(t, done + {e}) == New(t, done) + {e};
    }
  }

  lemma CountReactivated(t: Themes, done: set<Text>, e: Text)
    ensures Reactivated(t, done + {e}) ==
      if Known(t, e) && !t.identities[Mine(e)].active then Reactivated(t, done) + {e} else Reactivated(t, done)
  {
  }

  lemma CountRenamed(t: Themes, rows: Rows, done: set<Text>, e: Text)
    requires Valid(t) && done <= rows.Keys && e in rows
    ensures Renamed(t, rows, done + {e}) ==
      if Known(t, e) && t.catalog[t.identities[Mine(e)].catalogId].name != rows[e].name
      then Renamed(t, rows, done) + {e} else Renamed(t, rows, done)
  {
  }

  lemma TallyStep(t: Themes, rows: Rows, done: set<Text>, y: Tally, e: Text)
    requires Valid(t) && done <= rows.Keys && Tallied(t, rows, done, y) && e in rows && e !in done
    ensures Tallied(t, rows, done + {e}, Count(t, rows, y, e))
  {
    CountNew(t, done, e);
    CountRenamed(t, rows, done, e);
    CountReactivated(t, done, e);
  }

  ghost predicate Progress(t: Themes, rows: Rows, w: Work, y: Tally)
    requires Valid(t)
  {
    Written(t, rows, w) && Tallied(t, rows, w.ids.Keys, y)
  }

  lemma NothingWritten(t: Themes, rows: Rows)
    requires Valid(t)
    ensures Progress(t, rows, Work(t.catalog, t.next, t.identities, map[]), Tally({}, {}, 0))
  {
    assert New(t, {}) == {} && Reactivated(t, {}) == {} && Renamed(t, rows, {}) == {};
  }

  /** One theme of the first loop: UPDATE where it is stored, INSERT where it is not. */
  method WriteTheme(t: Themes, rows: Rows, w: Work, e: Text) returns (w': Work)
    requires Valid(t) && Written(t, rows, w) && e in rows && e !in w.ids
    ensures Written(t, rows, w') && w'.ids.Keys == w.ids.Keys + {e}
  {
    if Known(t, e) {
      var id := t.identities[Mine(e)].catalogId;
      FreshId(t, w, e, id, w.next);
      StoredTheme(t, rows, w, id);
      WriteStep(t, rows, w, e, id, t.catalog[id].parent, w.next);
      AddKey(w.ids, e, id);
      w' := Write(w, e, rows[e].name, id, w.catalog[id].parent, w.next);
    } else {
      WriteStep(t, rows, w, e, w.next, 0, w.next + 1);
      AddKey(w.ids, e, w.next);
      w' := Write(w, e, rows[e].name, w.next, 0, w.next + 1);
    }
  }

  lemma StoredTheme(t: Themes, rows: Rows, w: Work, id: int)
    requires Written(t, rows, w) && id in t.catalog && !Named(w.ids, id)
    ensures id in w.catalog && w.catalog[id] == t.catalog[id]
  {
  }

  /** One pass through the first loop, unless it is told to stop or its statements fail. */
  method WriteAndCount(t: Themes, rows: Rows, w: Work, y: Tally, e: Text, cancelled: bool, fault: bool)
    returns (ok: bool, w': Work, y': Tally)
    requires Valid(t) && Progress(t, rows, w, y) && e in rows && e !in w.ids
    ensures ok <==> !cancelled && !fault
    ensures ok ==> Progress(t, rows, w', y') && w'.ids.Keys == w.ids.Keys + {e}
  {
    if cancelled || fault {
      return false, w, y;
    }
    TallyStep(t, rows, w.ids.Keys, y, e);
    y' := Count(t, rows, y, e);
    w' := WriteTheme(t, rows, w, e);
    ok := true;
  }

  /** The first loop over the themes of the file. */
  method WriteThemes(t: Themes, rows: Rows, faults: Faults) returns (ok: bool, w: Work, y: Tally)
    requires Valid(t)
    ensures faults.Quiet() ==> ok
    ensures ok ==> Progress(t, rows, w, y) && w.ids.Keys == rows.Keys
  {
    w, y := Work(t.catalog, t.next, t.identities, map[]), Tally({}, {}, 0);
    NothingWritten(t, rows);
    var pending, at := rows.Keys, 0;
    while pending != {}
      invariant pending <= rows.Keys && w.ids.Keys == rows.Keys - pending
      invariant Progress(t, rows, w, y)
      decreases pending
    {
      var e :| e in pending;
      TakeOne(rows.Keys, pending, e);
      ok, w, y := WriteAndCount(t, rows, w, y, e, faults.cancelled(at), faults.statement(at));
      if !ok {
        return;
      }
      pending, at := pending - {e}, at + 1;
    }
    NothingTaken(rows.Keys);
    ok := true;
  }

  // ----- Parents

  /** The catalog with the parents of the themes in `done` rewritten. */
  ghost predicate Parented(
    rows: Rows, ids: map<Text, int>, before: map<int, Theme>, done: set<Text>, after: map<int, Theme>)
    requires ParentsPresent(rows) && ids.Keys == rows.Keys
  {
    && after.Keys == before.Keys
    && (forall e | e in rows :: ids[e] in before && after[ids[e]] ==
          if e in done then before[ids[e]].(parent := WantedParent(rows, ids, e)) else before[ids[e]])
    && (forall id | id in before && !Named(ids, id) :: after[id] == before[id])
  }

  /** Known themes whose stored parent is not the one the file asks for. */
  ghost function Moved(t: Themes, rows: Rows, ids: map<Text, int>, done: set<Text>): set<Text>
    requires Valid(t) && ParentsPresent(rows) && ids.Keys == rows.Keys && done <= rows.Keys
  {
    set e | e in done && Known(t, e) && t.catalog[t.identities[Mine(e)].catalogId].parent != WantedParent(rows, ids, e)
  }

  lemma ParentStep(
    rows: Rows, ids: map<Text, int>, before: map<int, Theme>, done: set<Text>, now: map<int, Theme>, e: Text)
    requires ParentsPresent(rows) && ids.Keys == rows.Keys && Injective(ids)
    requires Parented(rows, ids, before, done, now) && e in rows && e !in done
    ensures Parented(rows, ids, before, done + {e}, now[ids[e] := now[ids[e]].(parent := WantedParent(rows, ids, e))])
    ensures now[ids[e]] == before[ids[e]]
    ensures before[ids[e]].parent == WantedParent(rows, ids, e) ==> Parented(rows, ids, before, done + {e}, now)
  {
    assert Named(ids, ids[e]);
  }

  lemma CountMoved(t: Themes, rows: Rows, ids: map<Text, int>, done: set<Text>, e: Text)
    requires Valid(t) && ParentsPresent(rows) && ids.Keys == rows.Keys && done <= rows.Keys && e in rows
    ensures Moved(t, rows, ids, done + {e}) ==
      if Known(t, e) && t.catalog[t.identities[Mine(e)].catalogId].parent != WantedParent(rows, ids, e)
      then Moved(t, rows, ids, done) + {e} else Moved(t, rows, ids, done)
  {
  }

  ghost predicate Relinked(t: Themes, rows: Rows, w: Work, done: set<Text>, now: map<int, Theme>, moved: set<Text>)
    requires Valid(t) && ParentsPresent(rows) && w.ids.Keys == rows.Keys && done <= rows.Keys
  {
    Parented(rows, w.ids, w.catalog, done, now) && moved == Moved(t, rows, w.ids, done)
  }

  /** The parent a theme has before the second loop is the one it was stored with. */
  lemma StoredParent(t: Themes, rows: Rows, w: Work, e: Text)
    requires Valid(t) && Written(t, rows, w) && e in w.ids
    ensures w.ids[e] in w.catalog
    ensures w.catalog[w.ids[e]].parent == if Known(t, e) then t.catalog[t.identities[Mine(e)].catalogId].parent else 0
  {
    if !Known(t, e) {
      assert w.ids[e] >= t.next;
    }
  }

  /** The second loop's UPDATE for one theme, which writes only where the parent differs. */
  method Relink(
    t: Themes, rows: Rows, w: Work, ghost done: set<Text>, now: map<int, Theme>, moved: set<Text>, e: Text, fault: bool)
    returns (ok: bool, now': map<int, Theme>, moved': set<Text>)
    requires Valid(t) && ParentsPresent(rows) && w.ids.Keys == rows.Keys && Written(t, rows, w)
    requires done <= rows.Keys && Relinked(t, rows, w, done, now, moved) && e in rows && e !in done
    ensures ok <==> !fault
    ensures ok ==> Relinked(t, rows, w, done + {e}, now', moved')
  {
    if fault {
      return false, now, moved;
    }
    ParentStep(rows, w.ids, w.catalog, done, now, e);
    StoredParent(t, rows, w, e);
    CountMoved(t, rows, w.ids, done, e);
    var wanted := WantedParent(rows, w.ids, e);
    if now[w.ids[e]].parent != wanted {
      now' := now[w.ids[e] := now[w.ids[e]].(parent := wanted)];
      moved' := if Known(t, e) then moved + {e} else moved;
    } else {
      now', moved' := now, moved;
    }
    ok := true;
  }

  lemma NothingRelinked(t: Themes, rows: Rows, w: Work)
    requires Valid(t) && ParentsPresent(rows) && w.ids.Keys == rows.Keys && Written(t, rows, w)
    ensures Relinked(t, rows, w, {}, w.catalog, {})
  {
    forall e | e in rows ensures w.ids[e] in w.catalog {
      StoredParent(t, rows, w, e);
    }
  }

  method WriteParents(t: Themes, rows: Rows, w: Work, faults: Faults)
    returns (ok: bool, now: map<int, Theme>, moved: set<Text>)
    requires Valid(t) && ParentsPresent(rows) && w.ids.Keys == rows.Keys && Written(t, rows, w)
    ensures faults.Quiet() ==> ok
    ensures ok ==> Relinked(t, rows, w, rows.Keys, now, moved)
  {
    now, moved := w.catalog, {};
    NothingRelinked(t, rows, w);
    var pending := rows.Keys;
    var at: nat := |rows|;
    NothingTaken(rows.Keys);
    while pending != {}
      invariant pending <= rows.Keys
      invariant Relinked(t, rows, w, rows.Keys - pending, now, moved)
      decreases pending
    {
      var e :| e in pending;
      TakeOne(rows.Keys, pending, e);
      ok, now, moved := Relink(t, rows, w, rows.Keys - pending, now, moved, e, faults.statement(at));
      if !ok {
        return;
      }
      pending, at := pending - {e}, at + 1;
    }
    ok := true;
  }

  // ----- Retiring and synchronising

  ghost function Retired(identities: map<Label, Identity>, gone: set<Label>): map<Label, Identity> {
    map l | l in identities :: if l in gone then identities[l].(active := false) else identities[l]
  }

  lemma RetireOne(identities: map<Label, Identity>, gone: set<Label>, l: Label)
    requires l in identities && l !in gone
    ensures var now := Retired(identities, gone); now[l := now[l].(active := false)] == Retired(identities, gone + {l})
  {
  }

  lemma RetireNone(identities: map<Label, Identity>)
    ensures Retired(identities, {}) == identities
  {
  }

  /** One UPDATE theme_external_identifier SET is_active=0. */
  method SwitchOff(identities: map<Label, Identity>, l: Label, fault: bool)
    returns (ok: bool, now: map<Label, Identity>)
    requires l in identities
    ensures ok <==> !fault
    ensures ok ==> now == identities[l := Identity(identities[l].catalogId, false)]
  {
    now := if fault then identities else identities[l := identities[l].(active := false)];
    ok := !fault;
  }

  /** The loop over the stored identities: one statement for each theme gone from the file. */
  method Retire(t: Themes, rows: Rows, identities: map<Label, Identity>, faults: Faults, from: nat)
    returns (ok: bool, now: map<Label, Identity>, retired: int)
    requires Dropped(t, rows) <= identities.Keys
    ensures faults.Quiet() ==> ok
    ensures ok ==> now == Retired(identities, Dropped(t, rows)) && retired == |Dropped(t, rows)|
  {
    ghost var gone := Dropped(t, rows);
    var pending, at := t.identities.Keys, from;
    now, retired := identities, 0;
    RetireNone(identities);
    AllOrNone(gone, pending);
    while pending != {}
      invariant pending <= t.identities.Keys
      invariant now == Retired(identities, gone - pending) && retired == |gone - pending|
      decreases pending
    {
      var l :| l in pending;
      if l.provider == PROVIDER && t.identities[l].active && l.external !in rows {
        TakeMember(gone, pending, l);
        RetireOne(identities, gone - pending, l);
        ok, now := SwitchOff(now, l, faults.statement(at));
        if !ok {
          return;
        }
        retired, at := retired + 1, at + 1;
      } else {
        TakeOther(gone, pending, l);
      }
      pending := pending - {l};
    }
    AllOrNone(gone, pending);
    ok := true;
  }

  /** The last statement: a theme is active exactly when some identity of it is. */
  function Synchronised(catalog: map<int, Theme>, identities: map<Label, Identity>): map<int, Theme> {
    map id | id in catalog :: catalog[id].(active := ActiveSomewhere(identities, id))
  }

  method Synchronise(catalog: map<int, Theme>, identities: map<Label, Identity>, fault: bool)
    returns (ok: bool, now: map<int, Theme>)
    ensures ok <==> !fault
    ensures ok ==> now == Synchronised(catalog, identities)
  {
    now := if fault then catalog else Synchronised(catalog, identities);
    ok := !fault;
  }

  /** The four stages together are the import. */
  lemma StagesGiveImport(t: Themes, rows: Rows, w: Work, catalog: map<int, Theme>)
    requires Valid(t) && ParentsPresent(rows) && w.ids.Keys == rows.Keys && Written(t, rows, w)
    requires Parented(rows, w.ids, w.catalog, rows.Keys, catalog)
    ensures Dropped(t, rows) <= w.identities.Keys
    ensures var identities := Retired(w.identities, Dropped(t, rows));
      Imported(t, rows, w.ids, Themes(Synchronised(catalog, identities), w.next, identities))
  {
    var identities := Retired(w.identities, Dropped(t, rows));
    RetiredIdentities(t, rows, w);
    forall e | e in rows
      ensures w.ids[e] in catalog && ActiveSomewhere(identities, w.ids[e])
      ensures catalog[w.ids[e]] == Theme(rows[e].name, WantedParent(rows, w.ids, e), true)
    {
      assert identities[Mine(e)] == Identity(w.ids[e], true);
    }
  }

  lemma RetiredIdentities(t: Themes, rows: Rows, w: Work)
    requires w.ids.Keys == rows.Keys && IdentitiesWritten(t, w)
    ensures Dropped(t, rows) <= w.identities.Keys
    ensures var identities := Retired(w.identities, Dropped(t, rows));
      && (forall l :: l in identities <==> l in t.identities || (l.provider == PROVIDER && l.external in rows))
      && (forall e | e in rows :: Mine(e) in identities && identities[Mine(e)] == Identity(w.ids[e], true))
      && (forall l | l in t.identities && !(l.provider == PROVIDER && l.external in rows) :: identities[l] ==
            if l.provider == PROVIDER then t.identities[l].(active := false) else t.identities[l])
  {
  }

  lemma ChangedIsRenamedOrMoved(t: Themes, rows: Rows, ids: map<Text, int>)
    requires Valid(t) && ParentsPresent(rows) && ids.Keys == rows.Keys
    ensures Changed(t, rows, ids) == Renamed(t, rows, rows.Keys) + Moved(t, rows, ids, rows.Keys)
  {
  }

  /** Everything importFile does to the two tables. */
  method Apply(t: Themes, rows: Rows, faults: Faults)
    returns (ok: bool, u: Themes, r: Result)
    requires Valid(t) && ParentsPresent(rows)
    ensures faults.Quiet() ==> ok
    ensures ok ==> Committed(t, rows, u, r)
    ensures !r.success
  {
    u, r := t, NO_RESULT;
    var written, w, y := WriteThemes(t, rows, faults);
    if !written {
      return false, u, r;
    }
    var linked, catalog, moved := WriteParents(t, rows, w, faults);
    if !linked {
      return false, u, r;
    }
    StagesGiveImport(t, rows, w, catalog);
    var dropped, identities, count := Retire(t, rows, w.identities, faults, 0);
    if !dropped {
      return false, u, r;
    }
    var settled, themes := Synchronise(catalog, identities, faults.statement(0));
    if !settled {
      return false, u, r;
    }
    ChangedIsRenamedOrMoved(t, rows, w.ids);
    var changed := y.renamed + moved;
    r := Result(false, |rows.Keys|, y.inserted, |changed|, |y.reactivated|,
                |rows.Keys| - y.inserted - |changed + y.reactivated|, count);
    u := Themes(themes, w.next, identities);
    assert Imported(t, rows, w.ids, u) && Counted(t, rows, w.ids, r);
    ok := true;
  }

  class Importer {
    constructor () {}

    /**
     `input` is None when the file cannot be resolved, opened or has another header. With
     `manageTransaction` false the caller owns the transaction and the rollback.
     */
    method ImportFile(input: Option<seq<Line>>, db: Connection<Themes>, manageTransaction: bool, faults: Faults)
      returns (r: Result)
      requires db.Valid() && Valid(db.working) && (manageTransaction || db.inTransaction)
      modifies db
      ensures db.Valid()
      ensures r.success ==> input.Some? && FileOk(input.value) && faults.NeverStops(256, |input.value|)
      ensures r.success && manageTransaction ==> !faults.begin && !faults.commit
      ensures r.success ==> Committed(old(db.working), RowsOf(input.value), db.working, r.(success := false))
      ensures r.success && manageTransaction ==> db.Idle()
      ensures manageTransaction && old(db.Idle()) && !r.success ==> db.Idle() && db.committed == old(db.committed)
      ensures !manageTransaction ==> db.inTransaction && db.committed == old(db.committed)
      ensures faults.Quiet() && input.Some? && FileOk(input.value) && (manageTransaction ==> old(db.Idle()))
              ==> r.success
    {
      r := NO_RESULT;
      if input.None? {
        return;
      }
      var valid, rows := ReadFile(input.value, faults);
      if !valid {
        return;
      }
      if manageTransaction {
        var begun := db.Begin(faults.begin);
        if !begun {
          return;
        }
      }
      var ok, u, counted := Apply(db.working, rows, faults);
      if !ok {
        if manageTransaction {
          db.Rollback();
        }
        return;
      }
      db.Write(u);
      if manageTransaction {
        var done := db.Commit(faults.commit);
        if !done {
          db.Rollback();
          return;
        }
      }
      r := counted.(success := true);
    }
  }

  // ----- Import after import

  lemma CommittedKeepsGood(t: Themes, rows: Rows, rank: map<Text, nat>, u: Themes, r: Result)
    requires ThemeTheorems.Good(t) && ParentsPresent(rows) && Ranked(rows, rank) && Committed(t, rows, u, r)
    ensures ThemeTheorems.Good(u)
  {
    var ids :| Imported(t, rows, ids, u) && Counted(t, rows, ids, r);
    ThemeTheorems.ImportKeepsValid(t, rows, ids, u);
    ThemeTheorems.ImportKeepsForest(t, rows, rank, ids, u);
  }

  /** Any files one after the other, each import with its own mishaps: the stored themes stay a valid forest. */
  method ImportAgainAndAgain(
    importer: Importer, db: Connection<Themes>, inputs: seq<Option<seq<Line>>>, mishaps: seq<Faults>)
    requires |mishaps| == |inputs| && db.Idle() && ThemeTheorems.Good(db.committed)
    modifies db
    ensures db.Idle() && ThemeTheorems.Good(db.committed)
  {
    var i := 0;
    while i < |inputs|
      invariant i <= |inputs| && db.Idle() && ThemeTheorems.Good(db.committed)
    {
      ghost var before := db.committed;
      var r := importer.ImportFile(inputs[i], db, true, mishaps[i]);
      if r.success {
        ghost var rows := RowsOf(inputs[i].value);
        ghost var rank :| Ranked(rows, rank);
        CommittedKeepsGood(before, rows, rank, db.committed, r.(success := false));
      }
      i := i + 1;
    }
  }
}
