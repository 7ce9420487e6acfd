/** theme_catalog and theme_external_identifier, and what a themes.csv import makes of them. */
module ThemeModel {
  import opened Wrappers
  import opened ThemeGraph

  /** One row of theme_catalog; a `parent` of 0 stands for NULL. */
  datatype Theme = Theme(name: Text, parent: int, active: bool)

  /** The UNIQUE(provider, external_id) key of theme_external_identifier. */
  datatype Label = Label(provider: Text, external: Text)
  datatype Identity = Identity(catalogId: int, active: bool)

  datatype Themes = Themes(catalog: map<int, Theme>, next: int, identities: map<Label, Identity>)

  datatype Result = Result(
    success: bool, rowsRead: int, inserted: int, updated: int, reactivated: int, kept: int, deactivated: int)

  const NO_RESULT := Result(false, 0, 0, 0, 0, 0, 0)

  function Mine(external: Text): Label {
    Label(PROVIDER, external)
  }

  /** Primary and foreign keys, and UNIQUE(theme_catalog_id, provider). */
  ghost predicate Valid(t: Themes) {
    && t.next > 0
    && (forall id | id in t.catalog ::
          0 < id < t.next && (t.catalog[id].parent == 0 || t.catalog[id].parent in t.catalog))
    && (forall l | l in t.identities :: t.identities[l].catalogId in t.catalog)
    && (forall a, b | a in t.identities && b in t.identities && a != b && a.provider == b.provider ::
          t.identities[a].catalogId != t.identities[b].catalogId)
  }

  ghost predicate ForestRank(catalog: map<int, Theme>, rank: map<int, nat>) {
    && rank.Keys == catalog.Keys
    && forall id | id in catalog && catalog[id].parent in catalog :: rank[catalog[id].parent] < rank[id]
  }

  /** The stored parent links contain no cycle. */
  ghost predicate Forest(catalog: map<int, Theme>) {
    exists rank :: ForestRank(catalog, rank)
  }

  // ----- The import

  predicate Known(t: Themes, e: Text) {
    Mine(e) in t.identities
  }

  /** Some theme of `ids` is stored under `id`. */
  ghost predicate Named(ids: map<Text, int>, id: int) {
    exists e :: e in ids && ids[e] == id
  }

  /** The catalog id of every theme in `ids`: the stored one where there is one, a new one otherwise. */
  ghost predicate Assigned(t: Themes, ids: map<Text, int>, next: int) {
    && Injective(ids)
    && t.next <= next
    && forall e | e in ids ::
         if Known(t, e) then ids[e] == t.identities[Mine(e)].catalogId else t.next <= ids[e] < next
  }

  /** The parent id the file asks for; 0 for none. */
  function WantedParent(rows: Rows, ids: map<Text, int>, e: Text): int
    requires e in rows && (rows[e].parent == EMPTY || rows[e].parent in ids)
  {
    if rows[e].parent == EMPTY then 0 else ids[rows[e].parent]
  }

  predicate ActiveSomewhere(identities: map<Label, Identity>, id: int) {
    exists l | l in identities :: identities[l].catalogId == id && identities[l].active
  }

  /** The stored tables after a successful import. */
  ghost predicate Imported(t: Themes, rows: Rows, ids: map<Text, int>, u: Themes)
    requires ParentsPresent(rows)
  {
    && ids.Keys == rows.Keys
    && Assigned(t, ids, u.next)
    && (forall l :: l in u.identities <==> l in t.identities || (l.provider == PROVIDER && l.external in rows))
    && (forall e | e in rows :: u.identities[Mine(e)] == Identity(ids[e], true))
    && (forall l | l in t.identities && !(l.provider == PROVIDER && l.external in rows) ::
          u.identities[l] == if l.provider == PROVIDER then t.identities[l].(active := false) else t.identities[l])
    && (forall id :: id in u.catalog <==> id in t.catalog || Named(ids, id))
    && (forall e | e in rows :: u.catalog[ids[e]] == Theme(rows[e].name, WantedParent(rows, ids, e), true))
    && (forall id | id in t.catalog && !Named(ids, id) ::
          u.catalog[id] == t.catalog[id].(active := ActiveSomewhere(u.identities, id)))
  }

  // ----- Counting

  ghost predicate Differs(t: Themes, rows: Rows, ids: map<Text, int>, e: Text)
    requires Valid(t) && ParentsPresent(rows) && ids.Keys == rows.Keys && e in rows && Known(t, e)
  {
    var stored := t.catalog[t.identities[Mine(e)].catalogId];
    stored.name != rows[e].name || stored.parent != WantedParent(rows, ids, e)
  }

  ghost function New(t: Themes, some: set<Text>): set<Text> {
    set e | e in some && !Known(t, e)
  }

  ghost function Changed(t: Themes, rows: Rows, ids: map<Text, int>): set<Text>
    requires Valid(t) && ParentsPresent(rows) && ids.Keys == rows.Keys
  {
    set e | e in rows && Known(t, e) && Differs(t, rows, ids, e)
  }

  ghost function Reactivated(t: Themes, some: set<Text>): set<Text> {
    set e | e in some && Known(t, e) && !t.identities[Mine(e)].active
  }

  function Dropped(t: Themes, rows: Rows): set<Label> {
    set l | l in t.identities && l.provider == PROVIDER && t.identities[l].active && l.external !in rows
  }

  ghost predicate Counted(t: Themes, rows: Rows, ids: map<Text, int>, r: Result)
    requires Valid(t) && ParentsPresent(rows) && ids.Keys == rows.Keys
  {
    && r.rowsRead == |rows.Keys|
    && r.inserted == |New(t, rows.Keys)|
    && r.updated == |Changed(t, rows, ids)|
    && r.reactivated == |Reactivated(t, rows.Keys)|
    && r.kept == r.rowsRead - r.inserted - |Changed(t, rows, ids) + Reactivated(t, rows.Keys)|
    && r.deactivated == |Dropped(t, rows)|
  }

  /** A successful import of the file: tables and counters for some assignment of catalog ids. */
  ghost predicate Committed(t: Themes, rows: Rows, u: Themes, r: Result)
    requires Valid(t) && ParentsPresent(rows)
  {
    exists ids :: Imported(t, rows, ids, u) && Counted(t, rows, ids, r)
  }
}
