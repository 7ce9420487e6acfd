/** What every themes.csv import keeps, and what importing the same file again does. */
module ThemeTheorems {
  import opened Wrappers
  import opened ThemeGraph
  import opened ThemeModel
  import opened Counting

  // ----- The keys of the two tables

  /** Where a label's catalog id comes from after an import. */
  lemma LabelTarget(t: Themes, rows: Rows, ids: map<Text, int>, u: Themes, l: Label)
    requires Valid(t) && ParentsPresent(rows) && Imported(t, rows, ids, u) && l in u.identities
    ensures l in t.identities ==> u.identities[l].catalogId == t.identities[l].catalogId
    ensures l !in t.identities ==> l.provider == PROVIDER && l.external in rows
    ensures l !in t.identities ==> u.identities[l].catalogId == ids[l.external] >= t.next
  {
    if l.provider == PROVIDER && l.external in rows {
      assert l == Mine(l.external);
    }
  }

  lemma ImportKeepsValid(t: Themes, rows: Rows, ids: map<Text, int>, u: Themes)
    requires Valid(t) && ParentsPresent(rows) && Imported(t, rows, ids, u)
    ensures Valid(u)
  {
    forall id | id in u.catalog
      ensures 0 < id < u.next && (u.catalog[id].parent == 0 || u.catalog[id].parent in u.catalog)
    {
      ParentStored(t, rows, ids, u, id);
    }
    forall l | l in u.identities ensures u.identities[l].catalogId in u.catalog {
      LabelTarget(t, rows, ids, u, l);
    }
    forall a, b | a in u.identities && b in u.identities && a != b && a.provider == b.provider
      ensures u.identities[a].catalogId != u.identities[b].catalogId
    {
      LabelTarget(t, rows, ids, u, a);
      LabelTarget(t, rows, ids, u, b);
    }
  }

  lemma ParentStored(t: Themes, rows: Rows, ids: map<Text, int>, u: Themes, id: int)
    requires Valid(t) && ParentsPresent(rows) && Imported(t, rows, ids, u) && id in u.catalog
    ensures 0 < id < u.next && (u.catalog[id].parent == 0 || u.catalog[id].parent in u.catalog)
  {
    if Named(ids, id) {
      var e :| e in ids && ids[e] == id;
      assert e in rows;
      if rows[e].parent != EMPTY {
        assert Named(ids, ids[rows[e].parent]);
      }
    }
  }

  // ----- The parent graph

  lemma {:induction false} Bound(rank: map<Text, nat>, some: set<Text>) returns (m: nat)
    requires some <= rank.Keys
    ensures forall e | e in some :: rank[e] < m
    decreases some
  {
    if some == {} {
      m := 0;
    } else {
      var e :| e in some;
      var rest := Bound(rank, some - {e});
      m := if rank[e] < rest then rest else rank[e] + 1;
      forall f | f in some ensures rank[f] < m {
        assert f == e || f in some - {e};
      }
    }
  }

  /**
   The whole stored graph stays a forest, also with themes left from earlier files and from other
   providers: links of the file stay among its themes, and every other theme can be ranked above them.
   */
  lemma ImportKeepsForest(t: Themes, rows: Rows, rank: map<Text, nat>, ids: map<Text, int>, u: Themes)
    requires Valid(t) && Forest(t.catalog)
    requires ParentsPresent(rows) && Ranked(rows, rank) && Imported(t, rows, ids, u)
    ensures Forest(u.catalog)
  {
    var was :| ForestRank(t.catalog, was);
    var above := Bound(rank, rows.Keys);
    ForestWithRank(t, rows, rank, ids, u, was, above);
  }

  lemma ForestWithRank(
    t: Themes, rows: Rows, rank: map<Text, nat>, ids: map<Text, int>, u: Themes, was: map<int, nat>, above: nat)
    requires Valid(t) && ForestRank(t.catalog, was)
    requires ParentsPresent(rows) && Ranked(rows, rank) && Imported(t, rows, ids, u)
    requires forall e | e in rows :: rank[e] < above
    ensures Forest(u.catalog)
  {
    OthersAreRanked(t, rows, ids, u, was);
    forall id | id in u.catalog && u.catalog[id].parent in u.catalog
      ensures LowerParent(rank, ids, u.catalog, was, above, id)
    {
      LinkFalls(t, rows, rank, ids, u, was, above, id);
    }
    RankedIsForest(rank, ids, u.catalog, was, above);
  }

  lemma OthersAreRanked(t: Themes, rows: Rows, ids: map<Text, int>, u: Themes, was: map<int, nat>)
    requires ForestRank(t.catalog, was) && ParentsPresent(rows) && Imported(t, rows, ids, u)
    ensures OthersRanked(ids, u.catalog, was)
  {
  }

  ghost predicate OthersRanked(ids: map<Text, int>, catalog: map<int, Theme>, was: map<int, nat>) {
    forall id | id in catalog && !Named(ids, id) :: id in was
  }

  ghost predicate LowerParent(
    rank: map<Text, nat>, ids: map<Text, int>, catalog: map<int, Theme>, was: map<int, nat>, above: nat, id: int)
    requires ids.Keys <= rank.Keys && OthersRanked(ids, catalog, was)
    requires id in catalog && catalog[id].parent in catalog
  {
    var now := RankAbove(rank, ids, catalog, was, above);
    now[catalog[id].parent] < now[id]
  }

  lemma RankedIsForest(
    rank: map<Text, nat>, ids: map<Text, int>, catalog: map<int, Theme>, was: map<int, nat>, above: nat)
    requires ids.Keys <= rank.Keys && OthersRanked(ids, catalog, was)
    requires forall id | id in catalog && catalog[id].parent in catalog ::
      LowerParent(rank, ids, catalog, was, above, id)
    ensures Forest(catalog)
  {
    var now := RankAbove(rank, ids, catalog, was, above);
    forall id | id in catalog && catalog[id].parent in catalog ensures now[catalog[id].parent] < now[id] {
      assert LowerParent(rank, ids, catalog, was, above, id);
    }
    assert ForestRank(catalog, now);
  }

  /** The file's themes keep the file's rank; every other theme keeps its old rank, above all of them. */
  ghost function RankAbove(
    rank: map<Text, nat>, ids: map<Text, int>, catalog: map<int, Theme>, was: map<int, nat>, above: nat): map<int, nat>
    requires ids.Keys <= rank.Keys
    requires OthersRanked(ids, catalog, was)
  {
    map id | id in catalog :: if Named(ids, id) then rank[Owner(ids, id)] else above + was[id]
  }

  ghost function Owner(ids: map<Text, int>, id: int): (e: Text)
    requires Named(ids, id)
    ensures e in ids && ids[e] == id
  {
    var e :| e in ids && ids[e] == id;
    e
  }

  lemma LinkFalls(
    t: Themes, rows: Rows, rank: map<Text, nat>, ids: map<Text, int>, u: Themes,
    was: map<int, nat>, above: nat, id: int)
    requires Valid(t) && ForestRank(t.catalog, was)
    requires ParentsPresent(rows) && Ranked(rows, rank) && Imported(t, rows, ids, u)
    requires forall e | e in rows :: rank[e] < above
    requires id in u.catalog && u.catalog[id].parent in u.catalog
    ensures OthersRanked(ids, u.catalog, was) && LowerParent(rank, ids, u.catalog, was, above, id)
  {
    var parent := u.catalog[id].parent;
    if Named(ids, id) {
      var e := Owner(ids, id);
      assert e in rows && parent == WantedParent(rows, ids, e);
      ImportKeepsValid(t, rows, ids, u);
      assert parent > 0;
      assert Named(ids, parent);
      assert Owner(ids, parent) == rows[e].parent;
    } else {
      assert u.catalog[id].parent == t.catalog[id].parent;
      if Named(ids, parent) {
        assert Owner(ids, parent) in rows;
      }
    }
  }

  ghost predicate Good(t: Themes) {
    Valid(t) && Forest(t.catalog)
  }

  lemma StepKeepsGood(t: Themes, rows: Rows, u: Themes)
    requires Good(t) && ImportedStep(t, rows, u)
    ensures Good(u)
  {
    if u != t {
      var rank, ids :| Ranked(rows, rank) && Imported(t, rows, ids, u);
      ImportKeepsValid(t, rows, ids, u);
      ImportKeepsForest(t, rows, rank, ids, u);
    }
  }

  /** Over any sequence of imports, of any acyclic files, keys stay valid and the graph stays a forest. */
  lemma {:induction false} ForestOverImports(states: seq<Themes>, files: seq<Rows>, n: nat)
    requires |states| == |files| + 1 && n <= |files| && Good(states[0])
    requires forall i | 0 <= i < |files| :: ImportedStep(states[i], files[i], states[i + 1])
    ensures Valid(states[n]) && Forest(states[n].catalog)
  {
    if n > 0 {
      ForestOverImports(states, files, n - 1);
      StepKeepsGood(states[n - 1], files[n - 1], states[n]);
    }
  }

  /** One import, failed or successful, as the importer's contract describes it. */
  ghost predicate ImportedStep(t: Themes, rows: Rows, u: Themes) {
    u == t || (ParentsPresent(rows) && exists rank, ids :: Ranked(rows, rank) && Imported(t, rows, ids, u))
  }

  // ----- What the file decides

  /** A theme is active exactly when some identity of it is. */
  lemma ActiveByIdentity(t: Themes, rows: Rows, ids: map<Text, int>, u: Themes, id: int)
    requires Valid(t) && ParentsPresent(rows) && Imported(t, rows, ids, u) && id in u.catalog
    ensures u.catalog[id].active <==>
      exists l :: l in u.identities && u.identities[l].catalogId == id && u.identities[l].active
  {
    if Named(ids, id) {
      var e := Owner(ids, id);
      assert e in rows && u.identities[Mine(e)] == Identity(id, true);
      assert Mine(e) in u.identities;
    }
  }

  /**
   The provider's active identities are exactly the file's, under distinct catalog ids, old ones where there were
   any; names and parents of their themes are those of the file; and a theme is active exactly when some identity
   of it is.
   */
  lemma FileIsMirrored(t: Themes, rows: Rows, ids: map<Text, int>, u: Themes)
    requires Valid(t) && ParentsPresent(rows) && Imported(t, rows, ids, u)
    ensures forall e ::
      (Label(PROVIDER, e) in u.identities && u.identities[Label(PROVIDER, e)].active) <==> e in rows
    ensures forall e | e in rows :: u.catalog[u.identities[Label(PROVIDER, e)].catalogId].name == rows[e].name
    ensures forall e | e in rows && rows[e].parent in rows ::
      u.catalog[u.identities[Label(PROVIDER, e)].catalogId].parent
      == u.identities[Label(PROVIDER, rows[e].parent)].catalogId
    ensures forall e | e in rows && rows[e].parent == EMPTY ::
      u.catalog[u.identities[Label(PROVIDER, e)].catalogId].parent == 0
    ensures forall e | e in rows && Label(PROVIDER, e) in t.identities ::
      u.identities[Label(PROVIDER, e)].catalogId == t.identities[Label(PROVIDER, e)].catalogId
    ensures forall e | e in rows && Label(PROVIDER, e) !in t.identities ::
      u.identities[Label(PROVIDER, e)].catalogId !in t.catalog
    ensures forall id | id in u.catalog ::
      u.catalog[id].active <==>
      exists l :: l in u.identities && u.identities[l].catalogId == id && u.identities[l].active
  {
    forall id | id in u.catalog
      ensures u.catalog[id].active <==>
        exists l :: l in u.identities && u.identities[l].catalogId == id && u.identities[l].active
    {
      ActiveByIdentity(t, rows, ids, u, id);
    }
    forall e | e in rows ensures Mine(e) == Label(PROVIDER, e) {
    }
  }

  /** Identities of other providers are never touched. */
  lemma OthersUntouched(t: Themes, rows: Rows, ids: map<Text, int>, u: Themes, l: Label)
    requires ParentsPresent(rows) && Imported(t, rows, ids, u) && l.provider != PROVIDER
    ensures l in u.identities <==> l in t.identities
    ensures l in t.identities ==> u.identities[l] == t.identities[l]
  {
  }

  /** Stored identities keep their theme; new ones get one that was not stored. */
  lemma StoredIdentity(t: Themes, rows: Rows, ids: map<Text, int>, u: Themes, l: Label)
    requires Valid(t) && ParentsPresent(rows) && Imported(t, rows, ids, u) && l in u.identities
    ensures l in t.identities ==> u.identities[l].catalogId == t.identities[l].catalogId
    ensures l !in t.identities ==> u.identities[l].catalogId !in t.catalog
  {
    if l.provider == PROVIDER && l.external in rows {
      assert l == Mine(l.external);
    }
  }

  /** A theme that only the provider knows ends inactive once the file lists none of its ids. */
  lemma DroppedThemeEnds(t: Themes, rows: Rows, ids: map<Text, int>, u: Themes, id: int)
    requires Valid(t) && ParentsPresent(rows) && Imported(t, rows, ids, u) && id in t.catalog
    requires forall l | l in t.identities && t.identities[l].catalogId == id ::
      l.provider == PROVIDER && l.external !in rows
    ensures id in u.catalog && !u.catalog[id].active
  {
    ActiveByIdentity(t, rows, ids, u, id);
    forall l | l in u.identities && u.identities[l].catalogId == id ensures !u.identities[l].active {
      StoredIdentity(t, rows, ids, u, l);
    }
  }

  /** A theme another provider knows as active stays active, whatever the file says. */
  lemma ForeignThemeStays(t: Themes, rows: Rows, ids: map<Text, int>, u: Themes, l: Label)
    requires Valid(t) && ParentsPresent(rows) && Imported(t, rows, ids, u)
    requires l in t.identities && l.provider != PROVIDER && t.identities[l].active
    ensures t.identities[l].catalogId in u.catalog && u.catalog[t.identities[l].catalogId].active
  {
    OthersUntouched(t, rows, ids, u, l);
    ActiveByIdentity(t, rows, ids, u, t.identities[l].catalogId);
  }

  /** Identities that are new, that became active, and that ceased to be. */
  ghost function Fresh(t: Themes, u: Themes): set<Label> {
    set l | l in u.identities && l !in t.identities
  }

  ghost function Switched(t: Themes, u: Themes, on: bool): set<Label> {
    set l | l in t.identities && l in u.identities && t.identities[l].active == !on && u.identities[l].active == on
  }

  /** Known identities of the file whose theme has another name or parent now. */
  ghost function Rewritten(t: Themes, rows: Rows, u: Themes): set<Label> {
    set l | l in t.identities && l.provider == PROVIDER && l.external in rows
            && t.identities[l].catalogId in t.catalog && t.identities[l].catalogId in u.catalog
            && (t.catalog[t.identities[l].catalogId].name != u.catalog[t.identities[l].catalogId].name
                || t.catalog[t.identities[l].catalogId].parent != u.catalog[t.identities[l].catalogId].parent)
  }

  ghost function Labels(some: set<Text>): set<Label> {
    set e | e in some :: Label(PROVIDER, e)
  }

  lemma {:induction false} LabelsSize(some: set<Text>)
    ensures |Labels(some)| == |some|
    decreases some
  {
    if some != {} {
      var e := Any(some);
      LabelsSize(some - {e});
      assert Labels(some) == Labels(some - {e}) + {Label(PROVIDER, e)};
    } else {
      assert Labels(some) == {};
    }
  }

  lemma FreshAreNew(t: Themes, rows: Rows, ids: map<Text, int>, u: Themes)
    requires Valid(t) && ParentsPresent(rows) && Imported(t, rows, ids, u)
    ensures Labels(New(t, rows.Keys)) == Fresh(t, u)
  {
    forall l ensures l in Labels(New(t, rows.Keys)) <==> l in Fresh(t, u) {
      if l in Fresh(t, u) {
        assert l == Mine(l.external) && l.external in New(t, rows.Keys);
      }
    }
  }

  lemma SwitchedOn(t: Themes, rows: Rows, ids: map<Text, int>, u: Themes)
    requires Valid(t) && ParentsPresent(rows) && Imported(t, rows, ids, u)
    ensures Labels(Reactivated(t, rows.Keys)) == Switched(t, u, true)
  {
    forall l ensures l in Labels(Reactivated(t, rows.Keys)) <==> l in Switched(t, u, true) {
      if l in Switched(t, u, true) {
        assert l == Mine(l.external) && l.external in Reactivated(t, rows.Keys);
      }
      if l in Labels(Reactivated(t, rows.Keys)) {
        assert l == Mine(l.external);
      }
    }
  }

  lemma SwitchedOff(t: Themes, rows: Rows, ids: map<Text, int>, u: Themes)
    requires Valid(t) && ParentsPresent(rows) && Imported(t, rows, ids, u)
    ensures Dropped(t, rows) == Switched(t, u, false)
  {
    forall l ensures l in Dropped(t, rows) <==> l in Switched(t, u, false) {
      if l in t.identities && l.provider == PROVIDER && l.external in rows {
        assert l == Mine(l.external);
      }
    }
  }

  lemma RewrittenAreChanged(t: Themes, rows: Rows, ids: map<Text, int>, u: Themes)
    requires Valid(t) && ParentsPresent(rows) && Imported(t, rows, ids, u)
    ensures Labels(Changed(t, rows, ids)) == Rewritten(t, rows, u)
  {
    forall l ensures l in Labels(Changed(t, rows, ids)) <==> l in Rewritten(t, rows, u) {
      if l in t.identities && l.provider == PROVIDER && l.external in rows {
        assert l == Mine(l.external) && ids[l.external] == t.identities[l].catalogId;
        assert l.external in Changed(t, rows, ids) <==> l in Rewritten(t, rows, u);
      }
    }
  }

  /** The counters of an import in terms of the tables before and after. */
  lemma CountersMeanTheTables(t: Themes, rows: Rows, ids: map<Text, int>, u: Themes, r: Result)
    requires Valid(t) && ParentsPresent(rows) && Imported(t, rows, ids, u) && Counted(t, rows, ids, r)
    ensures r.inserted == |Fresh(t, u)| && r.updated == |Rewritten(t, rows, u)|
    ensures r.reactivated == |Switched(t, u, true)| && r.deactivated == |Switched(t, u, false)|
  {
    LabelsSize(New(t, rows.Keys));
    FreshAreNew(t, rows, ids, u);
    LabelsSize(Changed(t, rows, ids));
    RewrittenAreChanged(t, rows, ids, u);
    LabelsSize(Reactivated(t, rows.Keys));
    SwitchedOn(t, rows, ids, u);
    SwitchedOff(t, rows, ids, u);
  }

  /** Stored, active, and already named and placed as the file says. */
  ghost function Same(t: Themes, rows: Rows, ids: map<Text, int>): set<Text>
    requires Valid(t) && ParentsPresent(rows) && ids.Keys == rows.Keys
  {
    set e | e in rows && Known(t, e) && !Differs(t, rows, ids, e) && t.identities[Mine(e)].active
  }

  lemma EveryThemeIsOneOf(t: Themes, rows: Rows, ids: map<Text, int>, e: Text)
    requires Valid(t) && ParentsPresent(rows) && ids.Keys == rows.Keys
    ensures e in rows.Keys <==>
      e in Same(t, rows, ids) || e in New(t, rows.Keys) || e in Changed(t, rows, ids) + Reactivated(t, rows.Keys)
    ensures !(e in Same(t, rows, ids) && e in New(t, rows.Keys))
    ensures !(e in Same(t, rows, ids) && e in Changed(t, rows, ids) + Reactivated(t, rows.Keys))
    ensures !(e in New(t, rows.Keys) && e in Changed(t, rows, ids) + Reactivated(t, rows.Keys))
  {
  }

  /** `kept`, computed by subtraction, counts exactly the themes the import had nothing to do for. */
  lemma KeptMeansUnchanged(t: Themes, rows: Rows, ids: map<Text, int>, r: Result)
    requires Valid(t) && ParentsPresent(rows) && ids.Keys == rows.Keys && Counted(t, rows, ids, r)
    ensures r.kept == |Same(t, rows, ids)|
  {
    var same, new0, touched := Same(t, rows, ids), New(t, rows.Keys), Changed(t, rows, ids) + Reactivated(t, rows.Keys);
    forall e
      ensures e in rows.Keys <==> e in same || e in new0 || e in touched
      ensures !(e in same && e in new0) && !(e in same && e in touched) && !(e in new0 && e in touched)
    {
      EveryThemeIsOneOf(t, rows, ids, e);
    }
    SizeOfThree(rows.Keys, same, new0, touched);
  }

  lemma IdsAgain(t: Themes, rows: Rows, ids: map<Text, int>, u: Themes, ids2: map<Text, int>, v: Themes)
    requires Valid(t) && ParentsPresent(rows) && Imported(t, rows, ids, u) && Imported(u, rows, ids2, v)
    ensures ids2 == ids
  {
    forall e | e in rows ensures ids2[e] == ids[e] {
      assert Mine(e) in u.identities;
    }
  }

  /** Importing the same file again changes neither table and counts every theme as unchanged. */
  lemma SameFileChangesNothing(
    t: Themes, rows: Rows, ids: map<Text, int>, u: Themes, ids2: map<Text, int>, v: Themes, r: Result)
    requires Valid(t) && ParentsPresent(rows) && Imported(t, rows, ids, u)
    requires Valid(u) && Imported(u, rows, ids2, v) && Counted(u, rows, ids2, r)
    ensures v.identities == u.identities && v.catalog == u.catalog
    ensures r.inserted == r.updated == r.reactivated == r.deactivated == 0 && r.kept == |rows.Keys|
  {
    IdsAgain(t, rows, ids, u, ids2, v);
    SameIdentities(t, rows, ids, u, v);
    SameCatalog(t, rows, ids, u, v);
    assert New(u, rows.Keys) == {};
    assert Changed(u, rows, ids) == {};
    assert Reactivated(u, rows.Keys) == {};
    assert Dropped(u, rows) == {};
  }

  lemma SameIdentity(t: Themes, rows: Rows, ids: map<Text, int>, u: Themes, v: Themes, l: Label)
    requires Valid(t) && ParentsPresent(rows) && Imported(t, rows, ids, u) && Imported(u, rows, ids, v)
    requires l in u.identities
    ensures l in v.identities && v.identities[l] == u.identities[l]
  {
    if l.provider == PROVIDER && l.external in rows {
      assert l == Mine(l.external);
    }
  }

  lemma SameIdentities(t: Themes, rows: Rows, ids: map<Text, int>, u: Themes, v: Themes)
    requires Valid(t) && ParentsPresent(rows) && Imported(t, rows, ids, u) && Imported(u, rows, ids, v)
    ensures v.identities == u.identities
  {
    forall l ensures l in v.identities <==> l in u.identities {
    }
    forall l | l in u.identities ensures v.identities[l] == u.identities[l] {
      SameIdentity(t, rows, ids, u, v, l);
    }
  }

  lemma SameCatalog(t: Themes, rows: Rows, ids: map<Text, int>, u: Themes, v: Themes)
    requires Valid(t) && ParentsPresent(rows) && Imported(t, rows, ids, u) && Imported(u, rows, ids, v)
    requires v.identities == u.identities
    ensures v.catalog == u.catalog
  {
    forall id ensures id in v.catalog <==> id in u.catalog {}
    forall id | id in u.catalog ensures v.catalog[id] == u.catalog[id] {
      if Named(ids, id) {
        var e := Owner(ids, id);
        assert e in rows;
      } else {
        assert id in t.catalog;
      }
    }
    assert v.catalog.Keys == u.catalog.Keys;
  }
}
