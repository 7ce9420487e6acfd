/**
 The minifig theme importer: four files are validated, the theme catalog is imported in the same
 transaction, and minifig_theme becomes the composition minifig - inventory - set - theme.
 */
module MinifigThemes {
  import opened Wrappers
  import opened Sql
  import opened ThemeGraph
  import TM = ThemeModel
  import TI = ThemeImporter

  // ----- The four files

  datatype SetLine = SetLine(wellFormed: bool, id: Text, theme: Text)
  datatype InventoryLine = InventoryLine(wellFormed: bool, id: Text, setNumber: Text)
  datatype RelationLine = RelationLine(wellFormed: bool, inventory: Text, figure: Text, quantity: Option<int>)

  datatype Files = Files(
    themes: seq<TI.Line>, sets: seq<SetLine>, inventories: seq<InventoryLine>, relations: seq<RelationLine>)

  /** theme of a set, by set number */
  ghost function SetThemes(lines: seq<SetLine>): map<Text, Text> {
    if lines == [] then map[]
    else
      var last := lines[|lines| - 1];
      SetThemes(lines[..|lines| - 1])[last.id := last.theme]
  }

  /** set number of an inventory, by inventory id */
  ghost function InventorySets(lines: seq<InventoryLine>): map<Text, Text> {
    if lines == [] then map[]
    else
      var last := lines[|lines| - 1];
      InventorySets(lines[..|lines| - 1])[last.id := last.setNumber]
  }

  ghost predicate SetsOk(themes: Rows, lines: seq<SetLine>) {
    lines == [] || (
      var last, before := lines[|lines| - 1], lines[..|lines| - 1];
      && SetsOk(themes, before)
      && last.wellFormed && last.id != EMPTY && last.theme != EMPTY && last.theme in themes
      && last.id !in SetThemes(before))
  }

  ghost predicate InventoriesOk(lines: seq<InventoryLine>) {
    lines == [] || (
      var last, before := lines[|lines| - 1], lines[..|lines| - 1];
      InventoriesOk(before) && last.wellFormed && last.id != EMPTY && last.id !in InventorySets(before))
  }

  predicate RelationOk(sets: map<Text, Text>, inventories: map<Text, Text>, line: RelationLine) {
    && line.wellFormed && line.inventory != EMPTY && line.figure != EMPTY
    && line.quantity.Some? && line.quantity.value > 0
    && line.inventory in inventories && inventories[line.inventory] in sets
  }

  ghost predicate RelationsOk(sets: map<Text, Text>, inventories: map<Text, Text>, lines: seq<RelationLine>) {
    && (forall i | 0 <= i < |lines| :: RelationOk(sets, inventories, lines[i]))
    && (forall i, j | 0 <= i < j < |lines| ::
          (lines[i].inventory, lines[i].figure) != (lines[j].inventory, lines[j].figure))
  }

  /** Everything the importer asks of the files before it looks at the database. */
  ghost predicate FilesOk(f: Files) {
    var themes := TI.RowsOf(f.themes);
    && TI.LinesOk(f.themes) && ParentsPresent(themes) && (exists rank :: Ranked(themes, rank))
    && SetsOk(themes, f.sets)
    && InventoriesOk(f.inventories)
    && RelationsOk(SetThemes(f.sets), InventorySets(f.inventories), f.relations)
  }

  /** A relation line after the join: the figure and the theme of the set its inventory belongs to. */
  datatype Joined = Joined(figure: Text, theme: Text)

  function Join(sets: map<Text, Text>, inventories: map<Text, Text>, line: RelationLine): Joined
    requires RelationOk(sets, inventories, line)
  {
    Joined(line.figure, sets[inventories[line.inventory]])
  }

  method ReadSets(themes: Rows, lines: seq<SetLine>) returns (ok: bool, sets: map<Text, Text>)
    ensures ok <==> SetsOk(themes, lines)
    ensures ok ==> sets == SetThemes(lines)
  {
    sets := map[];
    for i := 0 to |lines|
      invariant SetsOk(themes, lines[..i]) && sets == SetThemes(lines[..i])
    {
      var line := lines[i];
      assert lines[..i + 1][..i] == lines[..i];
      if !line.wellFormed || line.id == EMPTY || line.theme == EMPTY || line.id in sets || line.theme !in themes {
        SetsOkPrefix(themes, lines, i + 1);
        return false, sets;
      }
      sets := sets[line.id := line.theme];
    }
    assert lines[..|lines|] == lines;
    ok := true;
  }

  lemma {:induction false} SetsOkPrefix(themes: Rows, lines: seq<SetLine>, i: nat)
    requires i <= |lines|
    ensures SetsOk(themes, lines) ==> SetsOk(themes, lines[..i])
    decreases |lines|
  {
    if i < |lines| {
      SetsOkPrefix(themes, lines[..|lines| - 1], i);
      assert lines[..|lines| - 1][..i] == lines[..i];
    } else {
      assert lines[..i] == lines;
    }
  }

  method ReadInventories(lines: seq<InventoryLine>) returns (ok: bool, inventories: map<Text, Text>)
    ensures ok <==> InventoriesOk(lines)
    ensures ok ==> inventories == InventorySets(lines)
  {
    inventories := map[];
    for i := 0 to |lines|
      invariant InventoriesOk(lines[..i]) && inventories == InventorySets(lines[..i])
    {
      var line := lines[i];
      assert lines[..i + 1][..i] == lines[..i];
      if !line.wellFormed || line.id == EMPTY || line.id in inventories {
        InventoriesOkPrefix(lines, i + 1);
        return false, inventories;
      }
      inventories := inventories[line.id := line.setNumber];
    }
    assert lines[..|lines|] == lines;
    ok := true;
  }

  lemma {:induction false} InventoriesOkPrefix(lines: seq<InventoryLine>, i: nat)
    requires i <= |lines|
    ensures InventoriesOk(lines) ==> InventoriesOk(lines[..i])
    decreases |lines|
  {
    if i < |lines| {
      InventoriesOkPrefix(lines[..|lines| - 1], i);
      assert lines[..|lines| - 1][..i] == lines[..i];
    } else {
      assert lines[..i] == lines;
    }
  }

  method ReadRelations(sets: map<Text, Text>, inventories: map<Text, Text>, lines: seq<RelationLine>)
    returns (ok: bool, joined: seq<Joined>)
    ensures ok <==> RelationsOk(sets, inventories, lines)
    ensures ok ==> |joined| == |lines|
    ensures ok ==> forall i | 0 <= i < |lines| :: joined[i] == Join(sets, inventories, lines[i])
  {
    var sourcePairs: set<(Text, Text)> := {};
    joined := [];
    for i := 0 to |lines|
      invariant |joined| == i
      invariant forall k | 0 <= k < i :: RelationOk(sets, inventories, lines[k])
      invariant forall k | 0 <= k < i :: joined[k] == Join(sets, inventories, lines[k])
      invariant forall j, k | 0 <= j < k < i ::
        (lines[j].inventory, lines[j].figure) != (lines[k].inventory, lines[k].figure)
      invariant forall k | 0 <= k < i :: (lines[k].inventory, lines[k].figure) in sourcePairs
      invariant forall p | p in sourcePairs :: exists k :: 0 <= k < i && (lines[k].inventory, lines[k].figure) == p
    {
      var line := lines[i];
      var pair := (line.inventory, line.figure);
      if !RelationOk(sets, inventories, line) || pair in sourcePairs {
        return false, joined;
      }
      sourcePairs := sourcePairs + {pair};
      joined := joined + [Join(sets, inventories, line)];
    }
    ok := true;
  }

  // ----- The composition

  /** minifig_theme rows are keyed by all three columns. */
  datatype Link = Link(minifig: int, theme: int, provider: Text)

  /**
   `minifigs` is the lookup the importer builds: folded external id to catalog id, for the provider's
   active minifigs.
   */
  datatype Store = Store(themes: TM.Themes, minifigs: map<Text, int>, links: set<Link>)

  datatype Result = Result(
    success: bool, associations: int, unresolvedMinifigs: int, duplicatesCollapsed: int, relationshipRowsRead: int)

  const NO_RESULT := Result(false, 0, 0, 0, 0)

  /** Catalog id of each of the provider's active themes. */
  function Internal(t: TM.Themes): map<Text, int> {
    map l | l in t.identities && l.provider == PROVIDER && t.identities[l].active ::
      l.external := t.identities[l].catalogId
  }

  /** The link a joined line stands for, if its figure is known. */
  function LinkOf(minifigs: map<Text, int>, internal: map<Text, int>, fold: Text -> Text, j: Joined): Option<Link> {
    if fold(j.figure) in minifigs
    then Some(Link(minifigs[fold(j.figure)], if j.theme in internal then internal[j.theme] else 0, PROVIDER))
    else None
  }

  ghost function Links(
    minifigs: map<Text, int>, internal: map<Text, int>, fold: Text -> Text, joined: seq<Joined>): set<Link>
  {
    set k | 0 <= k < |joined| && LinkOf(minifigs, internal, fold, joined[k]).Some? ::
      LinkOf(minifigs, internal, fold, joined[k]).value
  }

  ghost function Unresolved(minifigs: map<Text, int>, fold: Text -> Text, joined: seq<Joined>): set<Text> {
    set k | 0 <= k < |joined| && fold(joined[k].figure) !in minifigs :: fold(joined[k].figure)
  }

  /** Joined lines whose figure is known, repetitions included. */
  ghost function Resolvable(minifigs: map<Text, int>, fold: Text -> Text, joined: seq<Joined>): nat {
    if joined == [] then 0
    else
      Resolvable(minifigs, fold, joined[..|joined| - 1])
        + if fold(joined[|joined| - 1].figure) in minifigs then 1 else 0
  }

  method Compose(minifigs: map<Text, int>, internal: map<Text, int>, fold: Text -> Text, joined: seq<Joined>)
    returns (associations: set<Link>, unresolved: set<Text>, resolvable: int)
    ensures associations == Links(minifigs, internal, fold, joined)
    ensures unresolved == Unresolved(minifigs, fold, joined)
    ensures resolvable == Resolvable(minifigs, fold, joined)
    ensures resolvable >= |associations|
  {
    associations, unresolved, resolvable := {}, {}, 0;
    for i := 0 to |joined|
      invariant associations == Links(minifigs, internal, fold, joined[..i])
      invariant unresolved == Unresolved(minifigs, fold, joined[..i])
      invariant resolvable == Resolvable(minifigs, fold, joined[..i]) >= |associations|
    {
      assert joined[..i + 1][..i] == joined[..i];
      LinksStep(minifigs, internal, fold, joined, i);
      var link := LinkOf(minifigs, internal, fold, joined[i]);
      if link.None? {
        unresolved := unresolved + {fold(joined[i].figure)};
      } else {
        associations, resolvable := associations + {link.value}, resolvable + 1;
      }
    }
    assert joined[..|joined|] == joined;
  }

  lemma LinksStep(minifigs: map<Text, int>, internal: map<Text, int>, fold: Text -> Text, joined: seq<Joined>, i: nat)
    requires i < |joined|
    ensures var link := LinkOf(minifigs, internal, fold, joined[i]);
      && Links(minifigs, internal, fold, joined[..i + 1]) ==
           Links(minifigs, internal, fold, joined[..i]) + (if link.Some? then {link.value} else {})
      && Unresolved(minifigs, fold, joined[..i + 1]) ==
           Unresolved(minifigs, fold, joined[..i]) + (if link.Some? then {} else {fold(joined[i].figure)})
  {
    var before, after := joined[..i], joined[..i + 1];
    assert after[i] == joined[i] && forall k | 0 <= k < i :: after[k] == before[k];
  }

  // ----- The import

  /** The joined lines of the four files. */
  ghost function JoinAll(f: Files): (joined: seq<Joined>)
    requires FilesOk(f)
  {
    seq(|f.relations|, i requires 0 <= i < |f.relations| =>
      Join(SetThemes(f.sets), InventorySets(f.inventories), f.relations[i]))
  }

  ghost predicate Imported(s: Store, f: Files, fold: Text -> Text, u: Store, r: Result) {
    && TM.Valid(s.themes) && FilesOk(f) && f.themes != []
    && ImportedFrom(s, f, fold, u, r)
  }

  ghost predicate ThemesImported(t: TM.Themes, rows: Rows, v: TM.Themes)
    requires TM.Valid(t) && ParentsPresent(rows)
  {
    exists themeResult :: TM.Committed(t, rows, v, themeResult)
  }

  ghost predicate ImportedFrom(s: Store, f: Files, fold: Text -> Text, u: Store, r: Result)
    requires TM.Valid(s.themes) && FilesOk(f)
  {
    && ThemesImported(s.themes, TI.RowsOf(f.themes), u.themes)
    && LinksReplaced(s, f, fold, u, r)
  }

  ghost predicate LinksReplaced(s: Store, f: Files, fold: Text -> Text, u: Store, r: Result)
    requires FilesOk(f)
  {
    var joined, internal := JoinAll(f), Internal(u.themes);
    && u.minifigs == s.minifigs
    && u.links == (set l | l in s.links && l.provider != PROVIDER) + Links(s.minifigs, internal, fold, joined)
    && r.associations == |Links(s.minifigs, internal, fold, joined)|
    && r.unresolvedMinifigs == |Unresolved(s.minifigs, fold, joined)|
    && r.duplicatesCollapsed == Resolvable(s.minifigs, fold, joined) - r.associations
    && r.duplicatesCollapsed >= 0
    && r.relationshipRowsRead == |f.relations|
  }

  /** Every file check that comes before the database, in the order of the source. Nobody can cancel here. */
  method ReadFiles(f: Files) returns (ok: bool, joined: seq<Joined>)
    ensures ok <==> FilesOk(f)
    ensures ok ==> joined == JoinAll(f)
  {
    joined := [];
    var read, themes, _ := TI.ReadLines(f.themes, Faults(false, false, _ => false, _ => false));
    if !read || TI.MissingParent(themes) {
      return false, joined;
    }
    TI.NoEmptyId(f.themes);
    var cyclic := HasCycle(themes);
    if cyclic {
      return false, joined;
    }
    var setsOk, sets := ReadSets(themes, f.sets);
    if !setsOk {
      return false, joined;
    }
    var inventoriesOk, inventories := ReadInventories(f.inventories);
    if !inventoriesOk {
      return false, joined;
    }
    ok, joined := ReadRelations(sets, inventories, f.relations);
    if ok {
      assert FilesOk(f);
      assert joined == JoinAll(f);
    }
  }

  class Importer {
    constructor () {}

    /** `input` is None when a dataset is missing, doubled or unreadable. */
    method ImportDirectory(input: Option<Files>, fold: Text -> Text, db: Connection<Store>, faults: Faults)
      returns (r: Result)
      requires db.Idle() && TM.Valid(db.committed.themes)
      modifies db
      ensures db.Idle()
      ensures r.success ==> input.Some? && old(db.committed).minifigs != map[] && OwnStatementsPass(faults)
      ensures r.success ==> Imported(old(db.committed), input.value, fold, db.committed, r)
      ensures !r.success ==> db.committed == old(db.committed)
      ensures faults.Quiet() && input.Some? && FilesOk(input.value) && input.value.themes != []
              && old(db.committed).minifigs != map[]
              ==> r.success
    {
      if input.None? {
        return NO_RESULT;
      }
      var f := input.value;
      var read, joined := ReadFiles(f);
      if !read || faults.statement(0) || db.working.minifigs == map[] {
        return NO_RESULT;
      }
      r := InTransaction(f, fold, joined, db, faults);
    }

    method InTransaction(f: Files, fold: Text -> Text, joined: seq<Joined>, db: Connection<Store>, faults: Faults)
      returns (r: Result)
      requires db.Idle() && TM.Valid(db.committed.themes) && FilesOk(f) && joined == JoinAll(f)
      modifies db
      ensures db.Idle()
      ensures r.success ==> Imported(old(db.committed), f, fold, db.committed, r)
      ensures r.success && !faults.statement(0) ==> OwnStatementsPass(faults)
      ensures !r.success ==> db.committed == old(db.committed)
      ensures faults.Quiet() && f.themes != [] ==> r.success
    {
      var begun := db.Begin(faults.begin);
      if !begun {
        return NO_RESULT;
      }
      var stored, u, counted := ReplaceLinks(db.working, f, fold, joined, faults);
      var done := db.Conclude(stored, u, faults.commit);
      r := if done then counted else NO_RESULT;
    }
  }

  /** The theme importer gets no cancellation token; its statements are the ones after the four of this importer. */
  function InThemes(faults: Faults): Faults {
    faults.(statement := (k: nat) => faults.statement(k + 4), cancelled := _ => false)
  }

  /** Neither BEGIN and COMMIT nor the importer's own four statements fail. */
  ghost predicate OwnStatementsPass(faults: Faults) {
    && !faults.begin && !faults.commit
    && !faults.statement(0) && !faults.statement(1) && !faults.statement(2) && !faults.statement(3)
  }

  /** The theme importer, called inside the transaction. */
  method ImportThemes(t: TM.Themes, f: Files, faults: Faults) returns (ok: bool, v: TM.Themes)
    requires TM.Valid(t) && FilesOk(f)
    ensures ok ==> f.themes != [] && ThemesImported(t, TI.RowsOf(f.themes), v)
    ensures faults.Quiet() && f.themes != [] ==> ok
  {
    var rows, counted;
    v := t;
    ok, rows := TI.ReadFile(f.themes, InThemes(faults));
    if ok {
      ok, v, counted := TI.Apply(t, rows, InThemes(faults));
      assert ok ==> TM.Committed(t, TI.RowsOf(f.themes), v, counted);
    }
  }

  /** Everything between BEGIN and COMMIT. */
  method ReplaceLinks(s: Store, f: Files, fold: Text -> Text, joined: seq<Joined>, faults: Faults)
    returns (ok: bool, u: Store, r: Result)
    requires TM.Valid(s.themes) && FilesOk(f) && joined == JoinAll(f)
    ensures ok ==> r.success && Imported(s, f, fold, u, r)
    ensures ok ==> !faults.statement(1) && !faults.statement(2) && !faults.statement(3)
    ensures faults.Quiet() && f.themes != [] ==> ok
  {
    u, r := s, NO_RESULT;
    var applied, themes := ImportThemes(s.themes, f, faults);
    if !applied || faults.statement(1) {
      return false, u, r;
    }
    var links, unknown, resolvable := Compose(s.minifigs, Internal(themes), fold, joined);
    if faults.statement(2) || faults.statement(3) {
      return false, u, r;
    }
    var others := set l | l in s.links && l.provider != PROVIDER;
    u := Store(themes, s.minifigs, others + links);
    r := Result(true, |links|, |unknown|, resolvable - |links|, |joined|);
    ok := true;
  }

  // ----- What the import means

  lemma {:induction false} SetThemeInFile(themes: Rows, lines: seq<SetLine>, id: Text)
    requires SetsOk(themes, lines) && id in SetThemes(lines)
    ensures SetThemes(lines)[id] in themes
  {
    if lines[|lines| - 1].id != id {
      SetThemeInFile(themes, lines[..|lines| - 1], id);
    }
  }

  lemma JoinedThemeInFile(f: Files, i: nat)
    requires FilesOk(f) && i < |f.relations|
    ensures JoinAll(f)[i].theme in TI.RowsOf(f.themes)
  {
    var line := f.relations[i];
    assert RelationOk(SetThemes(f.sets), InventorySets(f.inventories), line);
    SetThemeInFile(TI.RowsOf(f.themes), f.sets, InventorySets(f.inventories)[line.inventory]);
  }

  /** Every theme of the file has its catalog id after the theme import. */
  lemma ThemesResolve(t: TM.Themes, rows: Rows, u: TM.Themes, themeResult: TM.Result, e: Text)
    requires TM.Valid(t) && ParentsPresent(rows) && e in rows && TM.Committed(t, rows, u, themeResult)
    ensures TM.Mine(e) in u.identities && e in Internal(u) && Internal(u)[e] == u.identities[TM.Mine(e)].catalogId
  {
    var ids :| TM.Imported(t, rows, ids, u) && TM.Counted(t, rows, ids, themeResult);
    InternalId(u, e);
  }

  lemma InternalId(u: TM.Themes, e: Text)
    requires TM.Mine(e) in u.identities && u.identities[TM.Mine(e)].active
    ensures e in Internal(u) && Internal(u)[e] == u.identities[TM.Mine(e)].catalogId
  {
  }

  /** Line `i` of inventory_minifigs.csv puts minifig `m` in theme `t`. */
  ghost predicate Says(s: Store, f: Files, fold: Text -> Text, u: Store, m: int, t: int, i: nat)
    requires FilesOk(f) && i < |f.relations|
  {
    var line := f.relations[i];
    var theme := SetThemes(f.sets)[InventorySets(f.inventories)[line.inventory]];
    && fold(line.figure) in s.minifigs && s.minifigs[fold(line.figure)] == m
    && TM.Mine(theme) in u.themes.identities && u.themes.identities[TM.Mine(theme)].catalogId == t
  }

  /** minifig_theme is exactly the composition of the files for the provider, and untouched for all others. */
  lemma LinksAreTheComposition(s: Store, f: Files, fold: Text -> Text, u: Store, r: Result, l: Link)
    requires Imported(s, f, fold, u, r)
    ensures l.provider != PROVIDER ==> (l in u.links <==> l in s.links)
    ensures l.provider == PROVIDER ==>
      (l in u.links <==> exists i :: 0 <= i < |f.relations| && Says(s, f, fold, u, l.minifig, l.theme, i))
  {
    var joined, internal := JoinAll(f), Internal(u.themes);
    ImportedKnowsThemes(s, f, fold, u, r);
    forall i | 0 <= i < |joined|
      ensures LinkOf(s.minifigs, internal, fold, joined[i]) == Some(l) <==>
        l.provider == PROVIDER && Says(s, f, fold, u, l.minifig, l.theme, i)
    {
      LineSays(s, f, fold, u, l, i);
    }
    InLinks(s.minifigs, internal, fold, joined, l);
    LinkSplit(s, f, fold, u, r, l);
  }

  lemma LinkSplit(s: Store, f: Files, fold: Text -> Text, u: Store, r: Result, l: Link)
    requires Imported(s, f, fold, u, r)
    ensures l in u.links <==>
      (l in s.links && l.provider != PROVIDER) || l in Links(s.minifigs, Internal(u.themes), fold, JoinAll(f))
  {
  }

  lemma InLinks(minifigs: map<Text, int>, internal: map<Text, int>, fold: Text -> Text, joined: seq<Joined>, l: Link)
    ensures l in Links(minifigs, internal, fold, joined) <==>
      exists i :: 0 <= i < |joined| && LinkOf(minifigs, internal, fold, joined[i]) == Some(l)
    ensures l in Links(minifigs, internal, fold, joined) ==> l.provider == PROVIDER
  {
  }

  /** Every theme of the file has a catalog id that links can use. */
  ghost predicate ThemesKnown(rows: Rows, v: TM.Themes) {
    forall e | e in rows ::
      TM.Mine(e) in v.identities && e in Internal(v) && Internal(v)[e] == v.identities[TM.Mine(e)].catalogId
  }

  lemma ImportKnowsThemes(t: TM.Themes, rows: Rows, v: TM.Themes, themeResult: TM.Result)
    requires TM.Valid(t) && ParentsPresent(rows) && TM.Committed(t, rows, v, themeResult)
    ensures ThemesKnown(rows, v)
  {
    forall e | e in rows
      ensures TM.Mine(e) in v.identities && e in Internal(v) && Internal(v)[e] == v.identities[TM.Mine(e)].catalogId
    {
      ThemesResolve(t, rows, v, themeResult, e);
    }
  }

  lemma ImportedKnowsThemes(s: Store, f: Files, fold: Text -> Text, u: Store, r: Result)
    requires Imported(s, f, fold, u, r)
    ensures ThemesKnown(TI.RowsOf(f.themes), u.themes)
  {
    var themeResult :| TM.Committed(s.themes, TI.RowsOf(f.themes), u.themes, themeResult);
    ImportKnowsThemes(s.themes, TI.RowsOf(f.themes), u.themes, themeResult);
  }

  lemma LinkOfJoined(minifigs: map<Text, int>, internal: map<Text, int>, fold: Text -> Text, j: Joined, l: Link)
    requires j.theme in internal
    ensures LinkOf(minifigs, internal, fold, j) == Some(l) <==>
      && l.provider == PROVIDER && l.theme == internal[j.theme]
      && fold(j.figure) in minifigs && minifigs[fold(j.figure)] == l.minifig
  {
  }

  lemma JoinedLine(f: Files, i: nat)
    requires FilesOk(f) && i < |f.relations|
    ensures JoinAll(f)[i] == Join(SetThemes(f.sets), InventorySets(f.inventories), f.relations[i])
  {
  }

  lemma LineSays(s: Store, f: Files, fold: Text -> Text, u: Store, l: Link, i: nat)
    requires FilesOk(f) && i < |f.relations| && ThemesKnown(TI.RowsOf(f.themes), u.themes)
    ensures LinkOf(s.minifigs, Internal(u.themes), fold, JoinAll(f)[i]) == Some(l) <==>
      l.provider == PROVIDER && Says(s, f, fold, u, l.minifig, l.theme, i)
  {
    JoinedThemeInFile(f, i);
    JoinedLine(f, i);
    LinkOfJoined(s.minifigs, Internal(u.themes), fold, JoinAll(f)[i], l);
  }

  /** The order of the relation lines does not matter, and neither would repeating one. */
  lemma OrderDoesNotMatter(
    minifigs: map<Text, int>, internal: map<Text, int>, fold: Text -> Text, a: seq<Joined>, b: seq<Joined>)
    requires forall j: Joined :: j in a <==> j in b
    ensures Links(minifigs, internal, fold, a) == Links(minifigs, internal, fold, b)
    ensures Unresolved(minifigs, fold, a) == Unresolved(minifigs, fold, b)
  {
    LinksWithin(minifigs, internal, fold, a, b);
    LinksWithin(minifigs, internal, fold, b, a);
  }

  lemma LinksWithin(
    minifigs: map<Text, int>, internal: map<Text, int>, fold: Text -> Text, a: seq<Joined>, b: seq<Joined>)
    requires forall j: Joined | j in a :: j in b
    ensures Links(minifigs, internal, fold, a) <= Links(minifigs, internal, fold, b)
    ensures Unresolved(minifigs, fold, a) <= Unresolved(minifigs, fold, b)
  {
    forall i | 0 <= i < |a| ensures exists k :: 0 <= k < |b| && b[k] == a[i] {
      assert a[i] in b;
    }
  }

  // ----- The same over the fields of the lines

  /** An inventory of the file, and the set it belongs to, by the lines that say so. */
  ghost predicate LeadsTo(f: Files, inventory: Text, j: nat, k: nat) {
    && j < |f.inventories| && f.inventories[j].id == inventory
    && k < |f.sets| && f.sets[k].id == f.inventories[j].setNumber
  }

  lemma {:induction false} SetByLines(themes: Rows, lines: seq<SetLine>, id: Text)
    requires SetsOk(themes, lines)
    ensures id in SetThemes(lines) <==> exists k :: 0 <= k < |lines| && lines[k].id == id
    ensures forall k | 0 <= k < |lines| && lines[k].id == id ::
      id in SetThemes(lines) && SetThemes(lines)[id] == lines[k].theme
  {
    if lines != [] {
      SetByLines(themes, lines[..|lines| - 1], id);
      assert forall k | 0 <= k < |lines| - 1 :: lines[..|lines| - 1][k] == lines[k];
    }
  }

  lemma {:induction false} InventoryByLines(lines: seq<InventoryLine>, id: Text)
    requires InventoriesOk(lines)
    ensures id in InventorySets(lines) <==> exists j :: 0 <= j < |lines| && lines[j].id == id
    ensures forall j | 0 <= j < |lines| && lines[j].id == id ::
      id in InventorySets(lines) && InventorySets(lines)[id] == lines[j].setNumber
  {
    if lines != [] {
      InventoryByLines(lines[..|lines| - 1], id);
      assert forall j | 0 <= j < |lines| - 1 :: lines[..|lines| - 1][j] == lines[j];
    }
  }

  ghost predicate SetLinesOk(themes: Rows, lines: seq<SetLine>) {
    && (forall k | 0 <= k < |lines| ::
          lines[k].wellFormed && lines[k].id != EMPTY && lines[k].theme != EMPTY && lines[k].theme in themes)
    && forall j, k | 0 <= j < k < |lines| :: lines[j].id != lines[k].id
  }

  ghost predicate InventoryLinesOk(lines: seq<InventoryLine>) {
    && (forall k | 0 <= k < |lines| :: lines[k].wellFormed && lines[k].id != EMPTY)
    && forall j, k | 0 <= j < k < |lines| :: lines[j].id != lines[k].id
  }

  lemma {:induction false} SetsOkByLines(themes: Rows, lines: seq<SetLine>)
    ensures SetsOk(themes, lines) <==> SetLinesOk(themes, lines)
  {
    if lines != [] {
      var before, last := lines[..|lines| - 1], lines[|lines| - 1];
      SetsOkByLines(themes, before);
      assert forall k | 0 <= k < |before| :: before[k] == lines[k];
      if SetsOk(themes, before) {
        SetByLines(themes, before, last.id);
      }
      assert SetLinesOk(themes, lines) ==> SetLinesOk(themes, before);
    }
  }

  lemma {:induction false} InventoriesOkByLines(lines: seq<InventoryLine>)
    ensures InventoriesOk(lines) <==> InventoryLinesOk(lines)
  {
    if lines != [] {
      var before, last := lines[..|lines| - 1], lines[|lines| - 1];
      InventoriesOkByLines(before);
      assert forall k | 0 <= k < |before| :: before[k] == lines[k];
      if InventoriesOk(before) {
        InventoryByLines(before, last.id);
      }
      assert InventoryLinesOk(lines) ==> InventoryLinesOk(before);
    }
  }

  /** A relation line that can be used: its three fields, and an inventory of the file that is a set's. */
  ghost predicate RelationReads(f: Files, line: RelationLine) {
    && line.wellFormed && line.inventory != EMPTY && line.figure != EMPTY
    && line.quantity.Some? && line.quantity.value >= 1
    && exists j, k :: LeadsTo(f, line.inventory, j, k)
  }

  lemma RelationByLines(f: Files, themes: Rows, line: RelationLine)
    requires SetsOk(themes, f.sets) && InventoriesOk(f.inventories)
    ensures RelationOk(SetThemes(f.sets), InventorySets(f.inventories), line) <==> RelationReads(f, line)
  {
    var inventories := InventorySets(f.inventories);
    InventoryByLines(f.inventories, line.inventory);
    if line.inventory in inventories {
      SetByLines(themes, f.sets, inventories[line.inventory]);
      if inventories[line.inventory] in SetThemes(f.sets) {
        var j: nat :| j < |f.inventories| && f.inventories[j].id == line.inventory;
        var k: nat :| k < |f.sets| && f.sets[k].id == inventories[line.inventory];
        assert LeadsTo(f, line.inventory, j, k);
      }
    }
  }

  ghost predicate RelationLinesOk(f: Files) {
    && (forall k | 0 <= k < |f.relations| :: RelationReads(f, f.relations[k]))
    && forall j, k | 0 <= j < k < |f.relations| ::
         !(f.relations[j].inventory == f.relations[k].inventory && f.relations[j].figure == f.relations[k].figure)
  }

  lemma RelationsByLines(f: Files, themes: Rows)
    requires SetsOk(themes, f.sets) && InventoriesOk(f.inventories)
    ensures RelationsOk(SetThemes(f.sets), InventorySets(f.inventories), f.relations) <==> RelationLinesOk(f)
  {
    forall k | 0 <= k < |f.relations|
      ensures RelationOk(SetThemes(f.sets), InventorySets(f.inventories), f.relations[k])
        <==> RelationReads(f, f.relations[k])
    {
      RelationByLines(f, themes, f.relations[k]);
    }
  }

  lemma ThemesByLines(f: Files)
    ensures f.themes == [] || TI.FileOk(f.themes) <==>
      var themes := TI.RowsOf(f.themes);
      TI.LinesOk(f.themes) && ParentsPresent(themes) && exists rank :: Ranked(themes, rank)
  {
    if f.themes == [] {
      assert Ranked(TI.RowsOf(f.themes), map[]);
    }
  }

  /** Some line of themes.csv has the id. */
  ghost predicate ThemeListed(f: Files, id: Text) {
    exists i :: 0 <= i < |f.themes| && f.themes[i].id == id
  }

  lemma SetLinesByThemes(f: Files)
    ensures SetsOk(TI.RowsOf(f.themes), f.sets) <==>
      && (forall k | 0 <= k < |f.sets| ::
            && f.sets[k].wellFormed && f.sets[k].id != EMPTY && f.sets[k].theme != EMPTY
            && ThemeListed(f, f.sets[k].theme))
      && (forall j, k | 0 <= j < k < |f.sets| :: f.sets[j].id != f.sets[k].id)
  {
    SetsOkByLines(TI.RowsOf(f.themes), f.sets);
    forall k | 0 <= k < |f.sets|
      ensures f.sets[k].theme in TI.RowsOf(f.themes) <==> ThemeListed(f, f.sets[k].theme)
    {
      TI.RowsAreTheLines(f.themes, f.sets[k].theme);
    }
  }

  /** Which four files pass, line by line; for themes.csv see `FileOkByFields`. */
  lemma FilesAccepted(f: Files)
    ensures FilesOk(f) <==>
      && (f.themes == [] || TI.FileOk(f.themes))
      && (forall k | 0 <= k < |f.sets| ::
            && f.sets[k].wellFormed && f.sets[k].id != EMPTY && f.sets[k].theme != EMPTY
            && ThemeListed(f, f.sets[k].theme))
      && (forall j, k | 0 <= j < k < |f.sets| :: f.sets[j].id != f.sets[k].id)
      && InventoryLinesOk(f.inventories)
      && RelationLinesOk(f)
  {
    SetLinesByThemes(f);
    InventoriesOkByLines(f.inventories);
    ThemesByLines(f);
    if SetsOk(TI.RowsOf(f.themes), f.sets) && InventoriesOk(f.inventories) {
      RelationsByLines(f, TI.RowsOf(f.themes));
    }
  }

  /** The figure of relation line `i` is minifig `m`, and its inventory leads to a set of theme `t`. */
  ghost predicate Tells(s: Store, f: Files, fold: Text -> Text, u: Store, m: int, t: int, i: nat, j: nat, k: nat) {
    && i < |f.relations| && LeadsTo(f, f.relations[i].inventory, j, k)
    && fold(f.relations[i].figure) in s.minifigs && s.minifigs[fold(f.relations[i].figure)] == m
    && TM.Label(PROVIDER, f.sets[k].theme) in u.themes.identities
    && u.themes.identities[TM.Label(PROVIDER, f.sets[k].theme)].catalogId == t
  }

  lemma TellsIsSays(s: Store, f: Files, fold: Text -> Text, u: Store, m: int, t: int, i: nat)
    requires FilesOk(f) && i < |f.relations|
    ensures Says(s, f, fold, u, m, t, i) <==> exists j, k :: Tells(s, f, fold, u, m, t, i, j, k)
  {
    var line, themes := f.relations[i], TI.RowsOf(f.themes);
    assert RelationOk(SetThemes(f.sets), InventorySets(f.inventories), line);
    RelationByLines(f, themes, line);
    InventoryByLines(f.inventories, line.inventory);
    SetByLines(themes, f.sets, InventorySets(f.inventories)[line.inventory]);
    var j, k :| LeadsTo(f, line.inventory, j, k);
    assert Says(s, f, fold, u, m, t, i) <==> Tells(s, f, fold, u, m, t, i, j, k);
  }

  ghost predicate SomeLineTells(s: Store, f: Files, fold: Text -> Text, u: Store, m: int, t: int) {
    exists i, j, k :: Tells(s, f, fold, u, m, t, i, j, k)
  }

  lemma SaidByLines(s: Store, f: Files, fold: Text -> Text, u: Store, m: int, t: int)
    requires FilesOk(f)
    ensures (exists i :: 0 <= i < |f.relations| && Says(s, f, fold, u, m, t, i)) <==> SomeLineTells(s, f, fold, u, m, t)
  {
    if i :| 0 <= i < |f.relations| && Says(s, f, fold, u, m, t, i) {
      TellsIsSays(s, f, fold, u, m, t, i);
      var j, k :| Tells(s, f, fold, u, m, t, i, j, k);
    }
    if i, j, k :| Tells(s, f, fold, u, m, t, i, j, k) {
      TellsIsSays(s, f, fold, u, m, t, i);
    }
  }

  /** minifig_theme afterwards, by the lines of the four files. */
  lemma LinksByLines(s: Store, f: Files, fold: Text -> Text, u: Store, r: Result, m: int, t: int)
    requires Imported(s, f, fold, u, r)
    ensures Link(m, t, PROVIDER) in u.links <==> exists i, j, k :: Tells(s, f, fold, u, m, t, i, j, k)
  {
    LinksAreTheComposition(s, f, fold, u, r, Link(m, t, PROVIDER));
    SaidByLines(s, f, fold, u, m, t);
  }

  /** How many relation lines have a figure the catalog knows. */
  ghost function Known(minifigs: map<Text, int>, fold: Text -> Text, lines: seq<RelationLine>): nat {
    if lines == [] then 0
    else
      Known(minifigs, fold, lines[..|lines| - 1]) + if fold(lines[|lines| - 1].figure) in minifigs then 1 else 0
  }

  lemma {:induction false} KnownIsResolvable(f: Files, minifigs: map<Text, int>, fold: Text -> Text, n: nat)
    requires FilesOk(f) && n <= |f.relations|
    ensures Known(minifigs, fold, f.relations[..n]) == Resolvable(minifigs, fold, JoinAll(f)[..n])
    decreases n
  {
    if n > 0 {
      KnownIsResolvable(f, minifigs, fold, n - 1);
      assert f.relations[..n][..n - 1] == f.relations[..n - 1];
      assert JoinAll(f)[..n][..n - 1] == JoinAll(f)[..n - 1];
      JoinedLine(f, n - 1);
    }
  }

  ghost function ProviderLinks(links: set<Link>): set<Link> {
    set l | l in links && l.provider == PROVIDER
  }

  ghost function UnknownFigures(minifigs: map<Text, int>, fold: Text -> Text, lines: seq<RelationLine>): set<Text> {
    set i | 0 <= i < |lines| && fold(lines[i].figure) !in minifigs :: fold(lines[i].figure)
  }

  lemma UnknownIsUnresolved(f: Files, minifigs: map<Text, int>, fold: Text -> Text)
    requires FilesOk(f)
    ensures Unresolved(minifigs, fold, JoinAll(f)) == UnknownFigures(minifigs, fold, f.relations)
  {
    forall i | 0 <= i < |f.relations| ensures JoinAll(f)[i].figure == f.relations[i].figure {
      JoinedLine(f, i);
    }
  }

  lemma LinksOfProvider(before: set<Link>, links: set<Link>, after: set<Link>)
    requires after == (set l | l in before && l.provider != PROVIDER) + links
    requires forall l | l in links :: l.provider == PROVIDER
    ensures ProviderLinks(after) == links
  {
  }

  lemma ResultOf(s: Store, f: Files, fold: Text -> Text, u: Store, r: Result)
    requires FilesOk(f) && LinksReplaced(s, f, fold, u, r)
    ensures r.relationshipRowsRead == |f.relations|
    ensures r.associations == |Links(s.minifigs, Internal(u.themes), fold, JoinAll(f))|
    ensures r.unresolvedMinifigs == |Unresolved(s.minifigs, fold, JoinAll(f))|
    ensures r.duplicatesCollapsed == Resolvable(s.minifigs, fold, JoinAll(f)) - r.associations
    ensures ProviderLinks(u.links) == Links(s.minifigs, Internal(u.themes), fold, JoinAll(f))
  {
    LinksOfProvider(s.links, Links(s.minifigs, Internal(u.themes), fold, JoinAll(f)), u.links);
  }

  lemma CountsByLines(f: Files, minifigs: map<Text, int>, fold: Text -> Text)
    requires FilesOk(f)
    ensures Unresolved(minifigs, fold, JoinAll(f)) == UnknownFigures(minifigs, fold, f.relations)
    ensures Resolvable(minifigs, fold, JoinAll(f)) == Known(minifigs, fold, f.relations)
  {
    UnknownIsUnresolved(f, minifigs, fold);
    KnownIsResolvable(f, minifigs, fold, |f.relations|);
    assert f.relations[..|f.relations|] == f.relations && JoinAll(f)[..|JoinAll(f)|] == JoinAll(f);
  }

  /** The counters: the provider's links, the figures nobody knows, and the known lines that added no link. */
  lemma CountersMeanTheLinks(s: Store, f: Files, fold: Text -> Text, u: Store, r: Result)
    requires Imported(s, f, fold, u, r)
    ensures r.relationshipRowsRead == |f.relations|
    ensures r.associations == |ProviderLinks(u.links)|
    ensures r.unresolvedMinifigs == |UnknownFigures(s.minifigs, fold, f.relations)|
    ensures r.duplicatesCollapsed == Known(s.minifigs, fold, f.relations) - r.associations
  {
    ResultOf(s, f, fold, u, r);
    CountsByLines(f, s.minifigs, fold);
  }
}
