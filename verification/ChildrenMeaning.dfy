/** What a committed child import means, stated about the lines of the file and the stored rows. */
module ChildrenMeaning {
  import opened Wrappers
  import opened CompositionModel
  import opened Counting
  import ChildrenImport

  // ----- The lines of the file and the maps they stand for

  lemma {:induction false} LineIsStored(x: Context, rows: seq<ChildRow>, i: nat)
    requires ChildrenImport.LinesOk(x, rows) && i < |rows| && !Resolve(x, rows[i]).Rejected?
    ensures var t, line := Resolve(x, rows[i]), Line(rows[i].quantity.value, rows[i].image);
      && (t.SetTarget? ==> t.key in SetLines(x, rows) && SetLines(x, rows)[t.key] == line)
      && (t.MinifigTarget? ==> t.key in MinifigLines(x, rows) && MinifigLines(x, rows)[t.key] == line)
  {
    var before := rows[..|rows| - 1];
    if i < |before| {
      LineIsStored(x, before, i);
      ChildrenImport.TargetsMeaning(x, before, Resolve(x, before[i]));
    }
  }

  lemma {:induction false} StoredIsLine(x: Context, rows: seq<ChildRow>, k: Key)
    ensures k in SetLines(x, rows) ==> exists i :: 0 <= i < |rows| && Resolve(x, rows[i]) == SetTarget(k)
    ensures k in MinifigLines(x, rows) ==> exists i :: 0 <= i < |rows| && Resolve(x, rows[i]) == MinifigTarget(k)
  {
    ChildrenImport.SeenIffLine(x, rows, k);
    ChildrenImport.TargetsMeaning(x, rows, SetTarget(k));
    ChildrenImport.TargetsMeaning(x, rows, MinifigTarget(k));
  }

  /** Some line of the file is about an inventory whose stored revision is `owner`. */
  ghost predicate Names(x: Context, rows: seq<ChildRow>, owner: int) {
    exists i :: 0 <= i < |rows| && Resolve(x, rows[i]).SetTarget? && Resolve(x, rows[i]).key.owner == owner
  }

  lemma NamesIffTouched(x: Context, rows: seq<ChildRow>, owner: int)
    requires ChildrenImport.LinesOk(x, rows)
    ensures Names(x, rows, owner) <==> owner in Touched(SetLines(x, rows))
  {
    if Names(x, rows, owner) {
      var i :| 0 <= i < |rows| && Resolve(x, rows[i]).SetTarget? && Resolve(x, rows[i]).key.owner == owner;
      LineIsStored(x, rows, i);
    }
    if owner in Touched(SetLines(x, rows)) {
      var k :| k in SetLines(x, rows) && k.owner == owner;
      StoredIsLine(x, rows, k);
    }
  }

  /** The row a line leaves: the stored one where nothing differs, and NULL for an image differs from nothing. */
  ghost predicate HoldsLine(was: Children, now: Children, k: Key, row: ChildRow) {
    k in now && row.quantity.Some? && now[k] ==
      if k in was && was[k].quantity == row.quantity.value
         && (row.image.None? || row.image.value == if was[k].image.Some? then was[k].image.value else EMPTY)
      then was[k]
      else Entry(row.quantity.value, row.image)
  }

  ghost predicate SameRow(was: Children, now: Children, k: Key) {
    (k in now <==> k in was) && (k in was ==> now[k] == was[k])
  }

  /** What reconciling with some lines leaves of one row. */
  lemma ReconciledAt(was: Children, lines: map<Key, Line>, k: Key)
    ensures var now := Reconciled(was, lines);
      if k.owner in Touched(lines) then
        && (k in now <==> k in lines)
        && (k in lines ==>
              now[k] == if k in was && !Differs(was[k], lines[k]) then was[k]
                        else Entry(lines[k].quantity, lines[k].image))
      else SameRow(was, now, k)
  {
    assert k in lines ==> k.owner in Touched(lines);
  }

  lemma LineHeld(x: Context, rows: seq<ChildRow>, was: Children, k: Key, i: nat)
    requires ChildrenImport.LinesOk(x, rows) && i < |rows| && Resolve(x, rows[i]) == SetTarget(k)
    ensures HoldsLine(was, Reconciled(was, SetLines(x, rows)), k, rows[i])
  {
    LineIsStored(x, rows, i);
    assert k.owner in Touched(SetLines(x, rows));
    ReconciledAt(was, SetLines(x, rows), k);
  }

  /** The set table after a successful import, by where the lines were taken to belong. */
  lemma NamedRevisionsHoldTheFile(
    kind: Kind, before: Catalog, owners: map<Text, bool>, minifigOwners: map<Text, int>,
    rows: seq<ChildRow>, after: Catalog, r: Result, k: Key)
    requires ChildrenCommitted(kind, before, owners, minifigOwners, rows, after, r)
    ensures var x := ContextOf(kind, before, owners, minifigOwners);
      var was, now := TableOf(kind, before), TableOf(kind, after);
      if Names(x, rows, k.owner) then
        && (k in now <==> exists i :: 0 <= i < |rows| && Resolve(x, rows[i]) == SetTarget(k))
        && (forall i | 0 <= i < |rows| && Resolve(x, rows[i]) == SetTarget(k) :: HoldsLine(was, now, k, rows[i]))
      else SameRow(was, now, k)
  {
    var x := ContextOf(kind, before, owners, minifigOwners);
    ChildrenImport.LinesOkMeaning(x, rows);
    NamesIffTouched(x, rows, k.owner);
    StoredIsLine(x, rows, k);
    ReconciledAt(TableOf(kind, before), SetLines(x, rows), k);
    forall i | 0 <= i < |rows| && Resolve(x, rows[i]) == SetTarget(k)
      ensures HoldsLine(TableOf(kind, before), TableOf(kind, after), k, rows[i])
    {
      LineHeld(x, rows, TableOf(kind, before), k, i);
    }
  }

  /** minifig_catalog_part after a successful parts import, by where the lines were taken to belong. */
  lemma OwnedMinifigsHoldTheFile(
    before: Catalog, owners: map<Text, bool>, minifigOwners: map<Text, int>,
    rows: seq<ChildRow>, after: Catalog, r: Result, k: Key)
    requires ChildrenCommitted(Parts, before, owners, minifigOwners, rows, after, r)
    ensures var x := ContextOf(Parts, before, owners, minifigOwners);
      var was, now := before.minifigParts, after.minifigParts;
      && (forall i | 0 <= i < |rows| && Resolve(x, rows[i]) == MinifigTarget(k) ::
            k in now && now[k] == MinifigPart(rows[i].quantity.value, PROVIDER, GLOBAL_SOURCE))
      && ((forall i | 0 <= i < |rows| :: Resolve(x, rows[i]) != MinifigTarget(k)) ==>
            if k in was && was[k].provider == PROVIDER && k.owner in minifigOwners.Values then k !in now
            else (k in now <==> k in was) && (k in was ==> now[k] == was[k]))
  {
    var x := ContextOf(Parts, before, owners, minifigOwners);
    ChildrenImport.LinesOkMeaning(x, rows);
    StoredIsLine(x, rows, k);
    forall i | 0 <= i < |rows| && Resolve(x, rows[i]) == MinifigTarget(k)
      ensures k in MinifigLines(x, rows) && MinifigLines(x, rows)[k].quantity == rows[i].quantity.value
    {
      LineIsStored(x, rows, i);
    }
  }

  // ----- The same over the fields of the lines and the stored tables

  /** The inventory of the line is an active revision with this id, and the set's if owners are known. */
  ghost predicate OfRevision(c: Catalog, owners: map<Text, bool>, row: ChildRow, id: int) {
    && row.inventory in c.revisions && c.revisions[row.inventory].active && c.revisions[row.inventory].id == id
    && (owners == map[] || (row.inventory in owners && owners[row.inventory]))
  }

  /** The inventory of the line belongs to this minifig. */
  ghost predicate OfMinifig(owners: map<Text, bool>, minifigOwners: map<Text, int>, row: ChildRow, minifig: int) {
    && row.inventory in owners && !owners[row.inventory]
    && row.inventory in minifigOwners && minifigOwners[row.inventory] == minifig
  }

  /** The line lists the part and colour of the key, spare or regular. */
  ghost predicate ListsPart(c: Catalog, row: ChildRow, k: Key) {
    && row.identity in c.parts && c.parts[row.identity] == k.identity
    && row.color in c.colors && c.colors[row.color] == k.color
    && row.spare == Some(k.spare)
  }

  ghost predicate ListsForMinifig(
    c: Catalog, owners: map<Text, bool>, minifigOwners: map<Text, int>, row: ChildRow, k: Key)
  {
    OfMinifig(owners, minifigOwners, row, k.owner) && ListsPart(c, row, k)
  }

  /** The inventories file says that the minifig has an inventory. */
  ghost predicate Owned(minifigOwners: map<Text, int>, minifig: int) {
    exists inventory :: inventory in minifigOwners && minifigOwners[inventory] == minifig
  }

  /** The line lists the minifig or contained set of the key. */
  ghost predicate ListsOther(identities: map<Text, int>, row: ChildRow, k: Key) {
    row.identity in identities && identities[row.identity] == k.identity && k.color == 0 && !k.spare
  }

  ghost predicate HasQuantity(row: ChildRow) {
    row.wellFormed && row.quantity.Some? && row.quantity.value > 0
  }

  /** A line of inventory_parts.csv that can be imported. */
  ghost predicate PartLineOk(c: Catalog, owners: map<Text, bool>, minifigOwners: map<Text, int>, row: ChildRow) {
    && HasQuantity(row) && row.spare.Some? && row.identity in c.parts && row.color in c.colors
    && row.inventory in owners
    && if owners[row.inventory] then row.inventory in c.revisions && c.revisions[row.inventory].active
       else row.inventory in minifigOwners
  }

  /** Two such lines about one stored row. */
  ghost predicate SamePart(
    c: Catalog, owners: map<Text, bool>, minifigOwners: map<Text, int>, a: ChildRow, b: ChildRow)
  {
    exists k :: ListsPart(c, a, k) && ListsPart(c, b, k)
      && ((OfRevision(c, owners, a, k.owner) && OfRevision(c, owners, b, k.owner))
          || (OfMinifig(owners, minifigOwners, a, k.owner) && OfMinifig(owners, minifigOwners, b, k.owner)))
  }

  /** A line of inventory_minifigs.csv or inventory_sets.csv that can be imported. */
  ghost predicate OtherLineOk(c: Catalog, owners: map<Text, bool>, identities: map<Text, int>, row: ChildRow) {
    && HasQuantity(row) && row.identity in identities
    && row.inventory in c.revisions && c.revisions[row.inventory].active
    && (owners == map[] || (row.inventory in owners && owners[row.inventory]))
  }

  ghost predicate SameOther(
    c: Catalog, owners: map<Text, bool>, identities: map<Text, int>, a: ChildRow, b: ChildRow)
  {
    exists k :: ListsOther(identities, a, k) && ListsOther(identities, b, k)
      && OfRevision(c, owners, a, k.owner) && OfRevision(c, owners, b, k.owner)
  }

  lemma PartLine(c: Catalog, owners: map<Text, bool>, minifigOwners: map<Text, int>, row: ChildRow, k: Key)
    requires owners != map[]
    ensures var t := Resolve(ContextOf(Parts, c, owners, minifigOwners), row);
      && (!t.Rejected? <==> PartLineOk(c, owners, minifigOwners, row))
      && (!t.Rejected? ==>
            && (t.SetTarget? && t.key.owner == k.owner <==> OfRevision(c, owners, row, k.owner))
            && (t == SetTarget(k) <==> OfRevision(c, owners, row, k.owner) && ListsPart(c, row, k))
            && (t == MinifigTarget(k) <==> OfMinifig(owners, minifigOwners, row, k.owner) && ListsPart(c, row, k)))
  {
  }

  lemma OtherLine(
    kind: Kind, c: Catalog, owners: map<Text, bool>, minifigOwners: map<Text, int>, identities: map<Text, int>,
    row: ChildRow, k: Key)
    requires (kind.Minifigs? && identities == c.minifigs) || (kind.Sets? && identities == c.sets)
    ensures var t := Resolve(ContextOf(kind, c, owners, minifigOwners), row);
      && (!t.Rejected? <==> OtherLineOk(c, owners, identities, row)) && !t.MinifigTarget?
      && (!t.Rejected? ==>
            && (t.key.owner == k.owner <==> OfRevision(c, owners, row, k.owner))
            && (t == SetTarget(k) <==> OfRevision(c, owners, row, k.owner) && ListsOther(identities, row, k)))
  {
  }

  /** Which files the parts import accepts. */
  lemma PartsAccepted(c: Catalog, owners: map<Text, bool>, minifigOwners: map<Text, int>, rows: seq<ChildRow>)
    ensures ChildFileOk(ContextOf(Parts, c, owners, minifigOwners), rows) <==>
      && rows != [] && owners != map[]
      && (forall i | 0 <= i < |rows| :: PartLineOk(c, owners, minifigOwners, rows[i]))
      && forall i, j | 0 <= i < j < |rows| :: !SamePart(c, owners, minifigOwners, rows[i], rows[j])
  {
    var x := ContextOf(Parts, c, owners, minifigOwners);
    if owners != map[] {
      forall i | 0 <= i < |rows|
        ensures !Resolve(x, rows[i]).Rejected? <==> PartLineOk(c, owners, minifigOwners, rows[i])
      {
        PartLine(c, owners, minifigOwners, rows[i], Key(0, 0, 0, false));
      }
      forall i, j | 0 <= i < j < |rows| && !Resolve(x, rows[i]).Rejected? && !Resolve(x, rows[j]).Rejected?
        ensures Resolve(x, rows[i]) == Resolve(x, rows[j]) <==> SamePart(c, owners, minifigOwners, rows[i], rows[j])
      {
        OnePartRow(c, owners, minifigOwners, rows[i], rows[j]);
      }
    }
  }

  lemma OnePartRow(c: Catalog, owners: map<Text, bool>, minifigOwners: map<Text, int>, a: ChildRow, b: ChildRow)
    requires owners != map[]
    requires PartLineOk(c, owners, minifigOwners, a) && PartLineOk(c, owners, minifigOwners, b)
    ensures var x := ContextOf(Parts, c, owners, minifigOwners);
      Resolve(x, a) == Resolve(x, b) <==> SamePart(c, owners, minifigOwners, a, b)
  {
    var x := ContextOf(Parts, c, owners, minifigOwners);
    PartLine(c, owners, minifigOwners, a, Key(0, 0, 0, false));
    var k := Resolve(x, a).key;
    PartLine(c, owners, minifigOwners, a, k);
    PartLine(c, owners, minifigOwners, b, k);
    if SamePart(c, owners, minifigOwners, a, b) {
      var l :| ListsPart(c, a, l) && ListsPart(c, b, l)
        && ((OfRevision(c, owners, a, l.owner) && OfRevision(c, owners, b, l.owner))
            || (OfMinifig(owners, minifigOwners, a, l.owner) && OfMinifig(owners, minifigOwners, b, l.owner)));
      PartLine(c, owners, minifigOwners, a, l);
      PartLine(c, owners, minifigOwners, b, l);
    }
  }

  lemma OthersAccepted(
    kind: Kind, c: Catalog, owners: map<Text, bool>, minifigOwners: map<Text, int>, identities: map<Text, int>,
    rows: seq<ChildRow>)
    requires (kind.Minifigs? && identities == c.minifigs) || (kind.Sets? && identities == c.sets)
    ensures ChildFileOk(ContextOf(kind, c, owners, minifigOwners), rows) <==>
      && rows != []
      && (forall i | 0 <= i < |rows| :: OtherLineOk(c, owners, identities, rows[i]))
      && forall i, j | 0 <= i < j < |rows| :: !SameOther(c, owners, identities, rows[i], rows[j])
  {
    var x := ContextOf(kind, c, owners, minifigOwners);
    forall i | 0 <= i < |rows| ensures !Resolve(x, rows[i]).Rejected? <==> OtherLineOk(c, owners, identities, rows[i]) {
      OtherLine(kind, c, owners, minifigOwners, identities, rows[i], Key(0, 0, 0, false));
    }
    forall i, j | 0 <= i < j < |rows| && !Resolve(x, rows[i]).Rejected? && !Resolve(x, rows[j]).Rejected?
      ensures Resolve(x, rows[i]) == Resolve(x, rows[j]) <==> SameOther(c, owners, identities, rows[i], rows[j])
    {
      OneOtherRow(kind, c, owners, minifigOwners, identities, rows[i], rows[j]);
    }
  }

  lemma OneOtherRow(
    kind: Kind, c: Catalog, owners: map<Text, bool>, minifigOwners: map<Text, int>, identities: map<Text, int>,
    a: ChildRow, b: ChildRow)
    requires (kind.Minifigs? && identities == c.minifigs) || (kind.Sets? && identities == c.sets)
    requires OtherLineOk(c, owners, identities, a) && OtherLineOk(c, owners, identities, b)
    ensures var x := ContextOf(kind, c, owners, minifigOwners);
      Resolve(x, a) == Resolve(x, b) <==> SameOther(c, owners, identities, a, b)
  {
    var x := ContextOf(kind, c, owners, minifigOwners);
    OtherLine(kind, c, owners, minifigOwners, identities, a, Key(0, 0, 0, false));
    var k := Resolve(x, a).key;
    OtherLine(kind, c, owners, minifigOwners, identities, a, k);
    OtherLine(kind, c, owners, minifigOwners, identities, b, k);
    if SameOther(c, owners, identities, a, b) {
      var l :| ListsOther(identities, a, l) && ListsOther(identities, b, l)
        && OfRevision(c, owners, a, l.owner) && OfRevision(c, owners, b, l.owner);
      OtherLine(kind, c, owners, minifigOwners, identities, a, l);
      OtherLine(kind, c, owners, minifigOwners, identities, b, l);
    }
  }

  /** Which files the imports of contained minifigs and contained sets accept. */
  lemma MinifigsAccepted(c: Catalog, owners: map<Text, bool>, minifigOwners: map<Text, int>, rows: seq<ChildRow>)
    ensures ChildFileOk(ContextOf(Minifigs, c, owners, minifigOwners), rows) <==>
      && rows != []
      && (forall i | 0 <= i < |rows| :: OtherLineOk(c, owners, c.minifigs, rows[i]))
      && forall i, j | 0 <= i < j < |rows| :: !SameOther(c, owners, c.minifigs, rows[i], rows[j])
  {
    OthersAccepted(Minifigs, c, owners, minifigOwners, c.minifigs, rows);
  }

  lemma SetsAccepted(c: Catalog, owners: map<Text, bool>, minifigOwners: map<Text, int>, rows: seq<ChildRow>)
    ensures ChildFileOk(ContextOf(Sets, c, owners, minifigOwners), rows) <==>
      && rows != []
      && (forall i | 0 <= i < |rows| :: OtherLineOk(c, owners, c.sets, rows[i]))
      && forall i, j | 0 <= i < j < |rows| :: !SameOther(c, owners, c.sets, rows[i], rows[j])
  {
    OthersAccepted(Sets, c, owners, minifigOwners, c.sets, rows);
  }

  /** The file has lines about the revision, and what stands for it is what they list; or it has none. */
  ghost predicate HoldsParts(
    c: Catalog, owners: map<Text, bool>, rows: seq<ChildRow>, was: Children, now: Children, k: Key)
  {
    if exists i :: 0 <= i < |rows| && OfRevision(c, owners, rows[i], k.owner) then
      && (k in now <==>
            exists i :: 0 <= i < |rows| && OfRevision(c, owners, rows[i], k.owner) && ListsPart(c, rows[i], k))
      && forall i | 0 <= i < |rows| && OfRevision(c, owners, rows[i], k.owner) && ListsPart(c, rows[i], k) ::
           HoldsLine(was, now, k, rows[i])
    else SameRow(was, now, k)
  }

  ghost predicate HoldsOthers(
    c: Catalog, owners: map<Text, bool>, identities: map<Text, int>, rows: seq<ChildRow>,
    was: Children, now: Children, k: Key)
  {
    if exists i :: 0 <= i < |rows| && OfRevision(c, owners, rows[i], k.owner) then
      && (k in now <==> exists i :: 0 <= i < |rows| && OfRevision(c, owners, rows[i], k.owner)
                                    && ListsOther(identities, rows[i], k))
      && forall i | 0 <= i < |rows| && OfRevision(c, owners, rows[i], k.owner)
                    && ListsOther(identities, rows[i], k) ::
           HoldsLine(was, now, k, rows[i])
    else SameRow(was, now, k)
  }

  /**
   set_inventory_part after a successful parts import: a revision the file names holds exactly the parts listed
   for it, by part, colour and spare flag and with the listed quantity; other revisions are as they were.
   */
  lemma PartsHoldTheFile(
    before: Catalog, owners: map<Text, bool>, minifigOwners: map<Text, int>,
    rows: seq<ChildRow>, after: Catalog, r: Result, k: Key)
    requires ChildrenCommitted(Parts, before, owners, minifigOwners, rows, after, r)
    ensures HoldsParts(before, owners, rows, before.setParts, after.setParts, k)
  {
    var x := ContextOf(Parts, before, owners, minifigOwners);
    NamedRevisionsHoldTheFile(Parts, before, owners, minifigOwners, rows, after, r, k);
    forall i | 0 <= i < |rows|
      ensures Resolve(x, rows[i]).SetTarget? && Resolve(x, rows[i]).key.owner == k.owner
        <==> OfRevision(before, owners, rows[i], k.owner)
      ensures Resolve(x, rows[i]) == SetTarget(k)
        <==> OfRevision(before, owners, rows[i], k.owner) && ListsPart(before, rows[i], k)
    {
      PartLine(before, owners, minifigOwners, rows[i], k);
    }
  }

  lemma OthersHoldTheFile(
    kind: Kind, before: Catalog, owners: map<Text, bool>, minifigOwners: map<Text, int>, identities: map<Text, int>,
    rows: seq<ChildRow>, after: Catalog, r: Result, k: Key)
    requires (kind.Minifigs? && identities == before.minifigs) || (kind.Sets? && identities == before.sets)
    requires ChildrenCommitted(kind, before, owners, minifigOwners, rows, after, r)
    ensures HoldsOthers(before, owners, identities, rows, TableOf(kind, before), TableOf(kind, after), k)
  {
    var x := ContextOf(kind, before, owners, minifigOwners);
    NamedRevisionsHoldTheFile(kind, before, owners, minifigOwners, rows, after, r, k);
    forall i | 0 <= i < |rows|
      ensures Resolve(x, rows[i]).SetTarget? && Resolve(x, rows[i]).key.owner == k.owner
        <==> OfRevision(before, owners, rows[i], k.owner)
      ensures Resolve(x, rows[i]) == SetTarget(k)
        <==> OfRevision(before, owners, rows[i], k.owner) && ListsOther(identities, rows[i], k)
    {
      OtherLine(kind, before, owners, minifigOwners, identities, rows[i], k);
    }
  }

  /** The same for set_inventory_minifig after a minifigs import. */
  lemma MinifigsHoldTheFile(
    before: Catalog, owners: map<Text, bool>, minifigOwners: map<Text, int>,
    rows: seq<ChildRow>, after: Catalog, r: Result, k: Key)
    requires ChildrenCommitted(Minifigs, before, owners, minifigOwners, rows, after, r)
    ensures HoldsOthers(before, owners, before.minifigs, rows, before.setMinifigs, after.setMinifigs, k)
  {
    OthersHoldTheFile(Minifigs, before, owners, minifigOwners, before.minifigs, rows, after, r, k);
  }

  /** The same for set_inventory_contained_set after a sets import. */
  lemma SetsHoldTheFile(
    before: Catalog, owners: map<Text, bool>, minifigOwners: map<Text, int>,
    rows: seq<ChildRow>, after: Catalog, r: Result, k: Key)
    requires ChildrenCommitted(Sets, before, owners, minifigOwners, rows, after, r)
    ensures HoldsOthers(before, owners, before.sets, rows, before.containedSets, after.containedSets, k)
  {
    OthersHoldTheFile(Sets, before, owners, minifigOwners, before.sets, rows, after, r, k);
  }

  /**
   minifig_catalog_part after a successful parts import: what the file lists for a minifig is there under the
   provider's name, other provider rows of the minifigs the inventories file owns are gone, all else is as it was.
   */
  lemma MinifigPartsHoldTheFile(
    before: Catalog, owners: map<Text, bool>, minifigOwners: map<Text, int>,
    rows: seq<ChildRow>, after: Catalog, r: Result, k: Key)
    requires ChildrenCommitted(Parts, before, owners, minifigOwners, rows, after, r)
    ensures var was, now := before.minifigParts, after.minifigParts;
      && (forall i | 0 <= i < |rows| && ListsForMinifig(before, owners, minifigOwners, rows[i], k) ::
            k in now && rows[i].quantity.Some?
            && now[k] == MinifigPart(rows[i].quantity.value, PROVIDER, GLOBAL_SOURCE))
      && ((forall i | 0 <= i < |rows| :: !ListsForMinifig(before, owners, minifigOwners, rows[i], k)) ==>
            if k in was && was[k].provider == PROVIDER && Owned(minifigOwners, k.owner) then k !in now
            else (k in now <==> k in was) && (k in was ==> now[k] == was[k]))
  {
    var x := ContextOf(Parts, before, owners, minifigOwners);
    OwnedMinifigsHoldTheFile(before, owners, minifigOwners, rows, after, r, k);
    forall i | 0 <= i < |rows|
      ensures Resolve(x, rows[i]) == MinifigTarget(k)
        <==> ListsForMinifig(before, owners, minifigOwners, rows[i], k)
      ensures rows[i].quantity.Some?
    {
      PartLine(before, owners, minifigOwners, rows[i], k);
    }
  }

  /** A minifigs or sets import leaves minifig_catalog_part alone, and no child import touches anything else. */
  lemma OtherTablesUntouched(
    kind: Kind, before: Catalog, owners: map<Text, bool>, minifigOwners: map<Text, int>,
    rows: seq<ChildRow>, after: Catalog, r: Result)
    requires ChildrenCommitted(kind, before, owners, minifigOwners, rows, after, r)
    ensures after.revisions == before.revisions && after.nextRevision == before.nextRevision
    ensures after.sets == before.sets && after.minifigs == before.minifigs
    ensures after.parts == before.parts && after.colors == before.colors
    ensures !kind.Parts? ==> after.setParts == before.setParts && after.minifigParts == before.minifigParts
    ensures !kind.Minifigs? ==> after.setMinifigs == before.setMinifigs
    ensures !kind.Sets? ==> after.containedSets == before.containedSets
  {
    if !kind.Parts? {
      var x := ContextOf(kind, before, owners, minifigOwners);
      NoMinifigLines(x, rows);
      NoLinesNoChange(before.minifigParts);
    }
  }

  lemma NoLinesNoChange(before: MinifigParts)
    ensures MinifigsReconciled(before, map[], {}) == before
  {
  }

  lemma {:induction false} NoMinifigLines(x: Context, rows: seq<ChildRow>)
    requires !x.kind.Parts?
    ensures MinifigLines(x, rows) == map[]
  {
    if rows != [] {
      NoMinifigLines(x, rows[..|rows| - 1]);
    }
  }

  // ----- Counters

  lemma ReconciledKeys(before: Children, lines: map<Key, Line>)
    ensures Reconciled(before, lines).Keys == (before.Keys + lines.Keys) - Stale(before, lines)
  {
  }

  lemma ReconciledSize(before: Children, lines: map<Key, Line>)
    ensures |Reconciled(before, lines).Keys| ==
      |before.Keys| + |lines.Keys - before.Keys| - |Stale(before, lines)|
  {
    ReconciledKeys(before, lines);
    GainAndLose(before.Keys, lines.Keys, Stale(before, lines));
  }

  lemma MinifigsReconciledKeys(before: MinifigParts, lines: map<Key, Line>, owned: set<int>)
    ensures MinifigsReconciled(before, lines, owned).Keys ==
      (before.Keys + lines.Keys) - MinifigStale(before, lines, owned)
  {
  }

  lemma MinifigsReconciledSize(before: MinifigParts, lines: map<Key, Line>, owned: set<int>)
    ensures |MinifigsReconciled(before, lines, owned).Keys| ==
      |before.Keys| + |lines.Keys - before.Keys| - |MinifigStale(before, lines, owned)|
  {
    MinifigsReconciledKeys(before, lines, owned);
    GainAndLose(before.Keys, lines.Keys, MinifigStale(before, lines, owned));
  }

  lemma {:induction false} EveryLineLandsOnce(x: Context, rows: seq<ChildRow>)
    requires ChildrenImport.LinesOk(x, rows)
    ensures |rows| == |SetLines(x, rows).Keys| + |MinifigLines(x, rows).Keys|
  {
    if rows != [] {
      var before, last := rows[..|rows| - 1], rows[|rows| - 1];
      EveryLineLandsOnce(x, before);
      var k, line := Resolve(x, last).key, Line(last.quantity.value, last.image);
      ChildrenImport.SeenIffLine(x, before, k);
      AddKey(SetLines(x, before), k, line);
      AddKey(MinifigLines(x, before), k, line);
    }
  }

  /** Every line read is counted once, and the tables grow by the rows inserted less the rows replaced. */
  lemma CountersAddUp(
    kind: Kind, before: Catalog, owners: map<Text, bool>, minifigOwners: map<Text, int>,
    rows: seq<ChildRow>, after: Catalog, r: Result)
    requires ChildrenCommitted(kind, before, owners, minifigOwners, rows, after, r)
    ensures r.rowsRead == |rows| == r.inserted + r.updated + r.kept == r.setInventoryRows + r.minifigPartRows
    ensures |TableOf(kind, after).Keys| + |after.minifigParts.Keys| ==
      |TableOf(kind, before).Keys| + |before.minifigParts.Keys| + r.inserted - r.replaced
  {
    var x := ContextOf(kind, before, owners, minifigOwners);
    ChildrenImport.LinesOkMeaning(x, rows);
    EveryLineLandsOnce(x, rows);
    ReconciledSize(TableOf(kind, before), SetLines(x, rows));
    MinifigsReconciledSize(
      before.minifigParts, MinifigLines(x, rows), if kind.Parts? then minifigOwners.Values else {});
  }

  ghost function New<V>(was: map<Key, V>, now: map<Key, V>): set<Key> {
    set k | k in now && k !in was
  }

  /** Rows the file lists and that are the same before and after. */
  ghost function Unchanged<V>(was: map<Key, V>, now: map<Key, V>, listed: set<Key>): set<Key> {
    set k | k in listed && k in was && k in now && was[k] == now[k]
  }

  lemma SetTableCounted(was: Children, lines: map<Key, Line>)
    ensures var now := Reconciled(was, lines);
      && lines.Keys - was.Keys == New(was, now) && Stale(was, lines) == New(now, was)
      && Kept(was, lines) == Unchanged(was, now, lines.Keys)
  {
    var now := Reconciled(was, lines);
    forall k ensures k in Kept(was, lines) <==> k in Unchanged(was, now, lines.Keys) {
      ReconciledAt(was, lines, k);
      assert k in lines ==> k.owner in Touched(lines);
    }
    ReconciledKeys(was, lines);
    assert forall k :: k in New(now, was) <==> k in was && k !in now.Keys;
    assert forall k :: k in New(was, now) <==> k in now.Keys && k !in was;
  }

  lemma MinifigTableCounted(was: MinifigParts, lines: map<Key, Line>, owned: set<int>)
    ensures var now := MinifigsReconciled(was, lines, owned);
      && lines.Keys - was.Keys == New(was, now) && MinifigStale(was, lines, owned) == New(now, was)
      && MinifigsKept(was, lines) == Unchanged(was, now, lines.Keys)
  {
    var now := MinifigsReconciled(was, lines, owned);
    forall k ensures k in MinifigsKept(was, lines) <==> k in Unchanged(was, now, lines.Keys) {
    }
    MinifigsReconciledKeys(was, lines, owned);
    assert forall k :: k in New(now, was) <==> k in was && k !in now.Keys;
    assert forall k :: k in New(was, now) <==> k in now.Keys && k !in was;
  }

  /**
   The counters in terms of the tables: rows that came, rows that went, and listed rows that did not change.
   */
  lemma CountersMeanTheTables(
    kind: Kind, before: Catalog, owners: map<Text, bool>, minifigOwners: map<Text, int>,
    rows: seq<ChildRow>, after: Catalog, r: Result)
    requires ChildrenCommitted(kind, before, owners, minifigOwners, rows, after, r)
    ensures var was, now, wasFigures, figures :=
        TableOf(kind, before), TableOf(kind, after), before.minifigParts, after.minifigParts;
      var x := ContextOf(kind, before, owners, minifigOwners);
      && r.inserted == |New(was, now)| + |New(wasFigures, figures)|
      && r.replaced == |New(now, was)| + |New(figures, wasFigures)|
      && r.kept == |Unchanged(was, now, SetLines(x, rows).Keys)|
                   + |Unchanged(wasFigures, figures, MinifigLines(x, rows).Keys)|
  {
    var x := ContextOf(kind, before, owners, minifigOwners);
    SetTableCounted(TableOf(kind, before), SetLines(x, rows));
    MinifigTableCounted(
      before.minifigParts, MinifigLines(x, rows), if kind.Parts? then minifigOwners.Values else {});
  }

  // ----- Importing the same file twice

  lemma ReconciledTwice(before: Children, lines: map<Key, Line>)
    ensures var now := Reconciled(before, lines);
      && Reconciled(now, lines) == now && Stale(now, lines) == {} && Kept(now, lines) == lines.Keys
      && lines.Keys - now.Keys == {}
  {
    var now := Reconciled(before, lines);
    assert Stale(now, lines) == {};
    forall k | k in lines ensures k in now && !Differs(now[k], lines[k]) {}
    assert Kept(now, lines) == lines.Keys;
    assert now.Keys == (now.Keys + lines.Keys) - Stale(now, lines);
  }

  lemma MinifigsReconciledTwice(before: MinifigParts, lines: map<Key, Line>, owned: set<int>)
    ensures var now := MinifigsReconciled(before, lines, owned);
      && MinifigsReconciled(now, lines, owned) == now && MinifigStale(now, lines, owned) == {}
      && MinifigsKept(now, lines) == lines.Keys && lines.Keys - now.Keys == {}
  {
    var now := MinifigsReconciled(before, lines, owned);
    assert MinifigStale(now, lines, owned) == {};
    forall k | k in lines ensures k in now && !MinifigDiffers(now[k], lines[k]) {}
    assert MinifigsKept(now, lines) == lines.Keys;
    assert now.Keys == (now.Keys + lines.Keys) - MinifigStale(now, lines, owned);
  }

  /** A second import of the same file changes no table and counts every line as unchanged. */
  lemma SameFileChangesNothing(
    kind: Kind, before: Catalog, owners: map<Text, bool>, minifigOwners: map<Text, int>,
    rows: seq<ChildRow>, after: Catalog, r: Result, again: Catalog, r2: Result)
    requires ChildrenCommitted(kind, before, owners, minifigOwners, rows, after, r)
    requires ChildrenCommitted(kind, after, owners, minifigOwners, rows, again, r2)
    ensures again == after
    ensures r2.inserted == r2.updated == r2.replaced == 0 && r2.kept == |rows|
  {
    var x := ContextOf(kind, before, owners, minifigOwners);
    assert ContextOf(kind, after, owners, minifigOwners) == x;
    CountersAddUp(kind, after, owners, minifigOwners, rows, again, r2);
    ReconciledTwice(TableOf(kind, before), SetLines(x, rows));
    MinifigsReconciledTwice(
      before.minifigParts, MinifigLines(x, rows), if kind.Parts? then minifigOwners.Values else {});
  }
}
