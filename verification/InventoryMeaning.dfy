/**
 Previewing a file and then applying the preview: what the four operations do to the stock of every part and
 colour, in terms of the file.
 */
module InventoryMeaning {
  import opened Wrappers
  import opened Sql
  import opened InventoryStock
  import opened InventoryPreview
  import opened InventoryApply

  // ----- What the file says about a key

  predicate IsAbout(w: Option<Wanted>, key: Key) {
    w.Some? && w.value.key == key
  }

  /** The sum of its lines. */
  function Csv(wanted: seq<Option<Wanted>>, key: Key): int {
    if wanted == [] then 0
    else
      var w := wanted[|wanted| - 1];
      Csv(wanted[..|wanted| - 1], key) + if IsAbout(w, key) then w.value.quantity else 0
  }

  /** How many lines there are. */
  function Lines(wanted: seq<Option<Wanted>>, key: Key): nat {
    if wanted == [] then 0
    else Lines(wanted[..|wanted| - 1], key) + if IsAbout(wanted[|wanted| - 1], key) then 1 else 0
  }

  /** The quantity of the last line; 0 without one. */
  function Last(wanted: seq<Option<Wanted>>, key: Key): int {
    if wanted == [] then 0
    else
      var w := wanted[|wanted| - 1];
      if IsAbout(w, key) then w.value.quantity else Last(wanted[..|wanted| - 1], key)
  }

  /** The quantity of the last line that differs from `shown`; `shown` without one. */
  function LastOther(wanted: seq<Option<Wanted>>, key: Key, shown: int): int {
    if wanted == [] then shown
    else
      var w := wanted[|wanted| - 1];
      if IsAbout(w, key) && w.value.quantity != shown then w.value.quantity
      else LastOther(wanted[..|wanted| - 1], key, shown)
  }

  ghost predicate Positive(wanted: seq<Option<Wanted>>) {
    forall i | 0 <= i < |wanted| && wanted[i].Some? :: wanted[i].value.quantity > 0
  }

  lemma OneLineMore(wanted: seq<Option<Wanted>>, n: nat, key: Key, shown: int)
    requires n < |wanted|
    ensures var w := wanted[n];
      && Csv(wanted[..n + 1], key) == Csv(wanted[..n], key) + (if IsAbout(w, key) then w.value.quantity else 0)
      && Last(wanted[..n + 1], key) == (if IsAbout(w, key) then w.value.quantity else Last(wanted[..n], key))
      && LastOther(wanted[..n + 1], key, shown)
         == if IsAbout(w, key) && w.value.quantity != shown then w.value.quantity
            else LastOther(wanted[..n], key, shown)
  {
    assert wanted[..n + 1][..n] == wanted[..n];
  }

  lemma {:induction false} NoLines(wanted: seq<Option<Wanted>>, key: Key)
    ensures Lines(wanted, key) == 0 <==> forall i | 0 <= i < |wanted| :: !IsAbout(wanted[i], key)
  {
    if wanted != [] {
      NoLines(wanted[..|wanted| - 1], key);
      assert Lines(wanted, key) == 0 ==> !IsAbout(wanted[|wanted| - 1], key);
    }
  }

  /** The last line says all there is exactly when there is at most one. */
  lemma {:induction false} LastIsSum(wanted: seq<Option<Wanted>>, key: Key)
    requires Positive(wanted)
    ensures Csv(wanted, key) >= Last(wanted, key) >= 0
    ensures Last(wanted, key) == Csv(wanted, key) <==> Lines(wanted, key) <= 1
    ensures Csv(wanted, key) > 0 <==> Lines(wanted, key) > 0
  {
    if wanted != [] {
      LastIsSum(wanted[..|wanted| - 1], key);
    }
  }

  /** One line is its own sum; the last different one of several never is. */
  lemma {:induction false} LastOtherAndSum(wanted: seq<Option<Wanted>>, key: Key, shown: int)
    requires Positive(wanted) && shown > 0
    ensures Lines(wanted, key) == 0 ==> Csv(wanted, key) == 0 && LastOther(wanted, key, shown) == shown
    ensures Lines(wanted, key) == 1 ==> LastOther(wanted, key, shown) == Csv(wanted, key)
    ensures Lines(wanted, key) > 1 ==> LastOther(wanted, key, shown) < Csv(wanted, key)
    ensures LastOther(wanted, key, shown) > 0
  {
    if wanted != [] {
      LastOtherAndSum(wanted[..|wanted| - 1], key, shown);
      LastIsSum(wanted[..|wanted| - 1], key);
    }
  }

  // ----- A preview without failures can be applied

  /** No row of the preview asks for review. */
  ghost predicate AllPass(rows: seq<Row>) {
    forall i | 0 <= i < |rows| :: !Fails(rows[i])
  }

  lemma {:induction false} NoFailures(rows: seq<Row>)
    ensures Failures(rows) == 0 <==> AllPass(rows)
  {
    if rows != [] {
      NoFailures(rows[..|rows| - 1]);
      assert AllPass(rows) ==> !Fails(rows[|rows| - 1]);
    }
  }

  /** A preview of this stock in which no row asks for review. */
  ghost predicate Clean(s: Stock, o: Options, wanted: seq<Option<Wanted>>, rows: seq<Row>) {
    && Lawful(s.records) && Positive(wanted) && o.op != CompareOnly
    && Previews(s.records, o.slot, o.op, wanted, rows) && AllPass(rows)
  }

  lemma LineOf(s: Stock, o: Options, wanted: seq<Option<Wanted>>, rows: seq<Row>, i: nat)
    requires Clean(s, o, wanted, rows) && i < |wanted|
    ensures wanted[i].Some? && rows[i].key == Some(wanted[i].value.key) && wanted[i].value.quantity > 0
    ensures IsCurrent(s.records, o.slot, wanted[i].value.key, rows[i].record, rows[i].current)
    ensures rows[i].source == wanted[i].value.quantity && Says(o.op, rows[i]) && !Fails(rows[i])
  {
    assert Shows(s.records, o.slot, o.op, wanted[i], rows[i]) && !Fails(rows[i]);
  }

  lemma FiguresOfRow(s: Stock, o: Options, wanted: seq<Option<Wanted>>, rows: seq<Row>, i: nat)
    requires Clean(s, o, wanted, rows) && i < |rows|
    ensures Figures(rows[i], o) && UpToDate(s, o.slot, rows[i])
    ensures IsCurrent(s.records, o.slot, rows[i].key.value, rows[i].record, rows[i].current)
  {
    if i < |wanted| {
      LineOf(s, o, wanted, rows, i);
    } else {
      assert Extra(s.records, o.slot, o.op, rows, i);
    }
  }

  lemma ExtraIsNew(s: Stock, o: Options, wanted: seq<Option<Wanted>>, rows: seq<Row>, i: nat, j: nat)
    requires Clean(s, o, wanted, rows) && i < j < |rows| && |wanted| <= j
    ensures rows[j].key.Some? && rows[i].key != rows[j].key
  {
    assert Extra(s.records, o.slot, o.op, rows, j);
    assert !Represented(rows, j, rows[j].key.value);
  }

  lemma SameRowShown(s: Stock, o: Options, wanted: seq<Option<Wanted>>, rows: seq<Row>, i: nat, j: nat)
    requires Clean(s, o, wanted, rows) && i < j < |rows| && rows[i].key == rows[j].key
    ensures rows[i].record == rows[j].record && rows[i].current == rows[j].current
  {
    if j < |wanted| {
      LineOf(s, o, wanted, rows, i);
      LineOf(s, o, wanted, rows, j);
    } else {
      ExtraIsNew(s, o, wanted, rows, i, j);
    }
  }

  /** Whatever the file repeats. */
  lemma PreviewIsApplicable(s: Stock, o: Options, wanted: seq<Option<Wanted>>, rows: seq<Row>)
    requires Clean(s, o, wanted, rows)
    ensures Applicable(s, rows, o)
  {
    forall i | 0 <= i < |rows| ensures Figures(rows[i], o) && UpToDate(s, o.slot, rows[i]) {
      FiguresOfRow(s, o, wanted, rows, i);
    }
    forall i, j | 0 <= i < |rows| && 0 <= j < |rows| && rows[i].key.Some? && rows[i].key == rows[j].key
      ensures rows[i].record == rows[j].record && rows[i].current == rows[j].current
    {
      if i < j {
        SameRowShown(s, o, wanted, rows, i, j);
      } else if j < i {
        SameRowShown(s, o, wanted, rows, j, i);
      }
    }
  }

  // ----- From rows to lines

  /** What a row that passed writes, and what it adds, in terms of its line. */
  lemma RowOfLine(o: Options, w: Wanted, row: Row)
    requires row.source == w.quantity && Says(o.op, row) && !Fails(row) && w.quantity > 0
    ensures o.op == Append || (o.op == Replace && row.current == 0) ==> row.difference == w.quantity
    ensures o.op == Subtract ==> Writes(row) && row.resulting == row.current - w.quantity
    ensures o.op == Replace && row.current != 0 ==>
      row.resulting == w.quantity && (Writes(row) <==> w.quantity != row.current)
  {
  }

  /** What the first `n` rows do to a key is what their lines say. */
  ghost predicate AsLines(o: Options, wanted: seq<Option<Wanted>>, rows: seq<Row>, n: nat, key: Key, shown: int)
    requires n <= |wanted| && n <= |rows|
  {
    && (Adds(o, shown) ==> Difference(rows[..n], key) == Csv(wanted[..n], key))
    && (o.op == Subtract ==> LastSet(rows[..n], key, shown) == shown - Last(wanted[..n], key))
    && (o.op == Replace && shown != 0 ==> LastSet(rows[..n], key, shown) == LastOther(wanted[..n], key, shown))
  }

  lemma OneRowMore(
    s: Stock, o: Options, wanted: seq<Option<Wanted>>, rows: seq<Row>, n: nat, key: Key, shown: int)
    requires Clean(s, o, wanted, rows) && n < |wanted| && AsLines(o, wanted, rows, n, key, shown)
    requires o.op != Append && rows[n].key == Some(key) ==> rows[n].current == shown
    ensures AsLines(o, wanted, rows, n + 1, key, shown)
  {
    LineOf(s, o, wanted, rows, n);
    RowOfLine(o, wanted[n].value, rows[n]);
    EffectLonger(rows, n, key, o, shown);
    OneLineMore(wanted, n, key, shown);
  }

  /** What the rows of the file show for a key, in terms of its lines. */
  lemma {:induction false} RowsOfLines(
    s: Stock, o: Options, wanted: seq<Option<Wanted>>, rows: seq<Row>, n: nat, key: Key, shown: int)
    requires Clean(s, o, wanted, rows) && n <= |wanted|
    requires o.op != Append ==> forall i | 0 <= i < |rows| && rows[i].key == Some(key) :: rows[i].current == shown
    ensures AsLines(o, wanted, rows, n, key, shown)
    decreases n
  {
    if n == 0 {
      assert rows[..0] == [] && wanted[..0] == [];
    } else {
      RowsOfLines(s, o, wanted, rows, n - 1, key, shown);
      OneRowMore(s, o, wanted, rows, n - 1, key, shown);
    }
  }

  /** Rows from `n` on that are about other keys change nothing. */
  lemma {:induction false} OthersFollow(rows: seq<Row>, n: nat, key: Key, shown: int)
    requires n <= |rows| && forall i | n <= i < |rows| :: rows[i].key != Some(key)
    ensures Difference(rows, key) == Difference(rows[..n], key)
    ensures LastSet(rows, key, shown) == LastSet(rows[..n], key, shown)
  {
    if |rows| == n {
      assert rows[..n] == rows;
    } else {
      OthersFollow(rows[..|rows| - 1], n, key, shown);
      assert rows[..|rows| - 1][..n] == rows[..n];
    }
  }

  /** An extra row is about a key the file does not list. */
  lemma ExtraIsUnlisted(s: Stock, o: Options, wanted: seq<Option<Wanted>>, rows: seq<Row>, k: nat)
    requires Clean(s, o, wanted, rows) && |wanted| <= k < |rows|
    ensures rows[k].key.Some? && rows[k].current > 0 && Writes(rows[k]) && rows[k].resulting == 0
    ensures Lines(wanted, rows[k].key.value) == 0
    ensures forall i | 0 <= i < |rows| && i != k :: rows[i].key != rows[k].key
  {
    assert Extra(s.records, o.slot, o.op, rows, k);
    var key := rows[k].key.value;
    forall i | 0 <= i < |wanted| ensures !IsAbout(wanted[i], key) {
      LineOf(s, o, wanted, rows, i);
      ExtraIsNew(s, o, wanted, rows, i, k);
    }
    NoLines(wanted, key);
    forall i | 0 <= i < |rows| && i != k ensures rows[i].key != rows[k].key {
      if i < k {
        ExtraIsNew(s, o, wanted, rows, i, k);
      } else {
        ExtraIsNew(s, o, wanted, rows, k, i);
      }
    }
  }

  /** `shown` is what the preview takes to be the stock of the key: that of one record, or nothing. */
  ghost predicate IsShown(rows: seq<Row>, key: Key, shown: int) {
    if Represented(rows, |rows|, key) then
      exists k :: 0 <= k < |rows| && rows[k].key == Some(key) && rows[k].current == shown
    else shown == 0
  }

  lemma SomethingShown(rows: seq<Row>, key: Key) returns (shown: int)
    ensures IsShown(rows, key, shown)
  {
    shown := 0;
    if Represented(rows, |rows|, key) {
      var k :| 0 <= k < |rows| && rows[k].key == Some(key);
      shown := rows[k].current;
    }
  }

  /** A key of the file has a row, which is not an extra one. */
  lemma ListedHasRow(s: Stock, o: Options, wanted: seq<Option<Wanted>>, rows: seq<Row>, key: Key)
    requires Clean(s, o, wanted, rows)
    ensures Lines(wanted, key) > 0 ==> Represented(rows, |rows|, key)
    ensures Lines(wanted, key) > 0 || o.op !in {Replace, CompareOnly} ==>
      forall i | |wanted| <= i < |rows| :: rows[i].key != Some(key)
    ensures Represented(rows, |rows|, key) && o.op !in {Replace, CompareOnly} ==> Lines(wanted, key) > 0
  {
    NoLines(wanted, key);
    forall i | 0 <= i < |wanted| ensures rows[i].key == Some(key) <==> IsAbout(wanted[i], key) {
      LineOf(s, o, wanted, rows, i);
    }
    if Lines(wanted, key) > 0 {
      forall i | |wanted| <= i < |rows| ensures rows[i].key != Some(key) {
        ExtraIsUnlisted(s, o, wanted, rows, i);
      }
    }
  }

  // ----- The stock of a key after a successful import, exactly

  /** What Replace leaves where it found `shown`. */
  function Left(wanted: seq<Option<Wanted>>, key: Key, shown: int): int {
    if Lines(wanted, key) == 0 then 0
    else if shown == 0 then Csv(wanted, key)
    else LastOther(wanted, key, shown)
  }

  /** Append adds every line, however often the file lists a key and however many makers there are. */
  lemma AppendAdds(s: Stock, o: Options, wanted: seq<Option<Wanted>>, rows: seq<Row>, key: Key)
    requires o.op == Append && Clean(s, o, wanted, rows) && AllApplied(s, rows, |rows|, o)
    ensures Total(AfterAll(s, rows, o).records, o.slot, key) == Total(s.records, o.slot, key) + Csv(wanted, key)
  {
    PreviewIsApplicable(s, o, wanted, rows);
    MovedByTheDifferences(s, rows, o, key);
    RowsOfLines(s, o, wanted, rows, |wanted|, key, 0);
    assert rows[..|wanted|] == rows && wanted[..|wanted|] == wanted;
  }

  /** Each line of a Subtract is held against the stock shown, so the last line of a key decides. */
  lemma SubtractTotals(s: Stock, o: Options, wanted: seq<Option<Wanted>>, rows: seq<Row>, key: Key)
    requires o.op == Subtract && Clean(s, o, wanted, rows) && AllApplied(s, rows, |rows|, o)
    ensures Total(AfterAll(s, rows, o).records, o.slot, key) == Total(s.records, o.slot, key) - Last(wanted, key)
  {
    PreviewIsApplicable(s, o, wanted, rows);
    ListedHasRow(s, o, wanted, rows, key);
    LastIsSum(wanted, key);
    assert rows[..|wanted|] == rows && wanted[..|wanted|] == wanted;
    if Represented(rows, |rows|, key) {
      var k :| 0 <= k < |rows| && rows[k].key == Some(key);
      EffectOfAll(s, rows, o, k);
      RowsOfLines(s, o, wanted, rows, |wanted|, key, rows[k].current);
    } else {
      KeyUntouched(s, rows, |rows|, o, key);
    }
  }

  /** What the rows of a key the file lists do to it under Replace. */
  lemma ReplaceOfLine(s: Stock, o: Options, wanted: seq<Option<Wanted>>, rows: seq<Row>, key: Key, k: nat)
    requires o.op == Replace && Clean(s, o, wanted, rows) && Applicable(s, rows, o)
    requires k < |wanted| && rows[k].key == Some(key)
    ensures Effect(rows, key, o, rows[k].current) == Left(wanted, key, rows[k].current) - rows[k].current
  {
    var shown := rows[k].current;
    LineOf(s, o, wanted, rows, k);
    NoLines(wanted, key);
    assert IsAbout(wanted[k], key);
    ListedHasRow(s, o, wanted, rows, key);
    OthersFollow(rows, |wanted|, key, shown);
    RowsOfLines(s, o, wanted, rows, |wanted|, key, shown);
    assert wanted[..|wanted|] == wanted;
  }

  /** The row of a key the file does not list takes away what it shows. */
  lemma ReplaceOfExtra(s: Stock, o: Options, wanted: seq<Option<Wanted>>, rows: seq<Row>, key: Key, k: nat)
    requires o.op == Replace && Clean(s, o, wanted, rows)
    requires |wanted| <= k < |rows| && rows[k].key == Some(key)
    ensures Effect(rows, key, o, rows[k].current) == Left(wanted, key, rows[k].current) - rows[k].current
  {
    ExtraIsUnlisted(s, o, wanted, rows, k);
    OthersFollow(rows, k + 1, key, rows[k].current);
    EffectLonger(rows, k, key, o, rows[k].current);
  }

  /** After Replace: the stock that was not shown, and what the lines leave of the stock that was. */
  lemma ReplaceTotals(s: Stock, o: Options, wanted: seq<Option<Wanted>>, rows: seq<Row>, key: Key, shown: int)
    requires o.op == Replace && Clean(s, o, wanted, rows) && AllApplied(s, rows, |rows|, o)
    requires IsShown(rows, key, shown)
    ensures Total(AfterAll(s, rows, o).records, o.slot, key)
      == Total(s.records, o.slot, key) - shown + Left(wanted, key, shown)
  {
    PreviewIsApplicable(s, o, wanted, rows);
    if Represented(rows, |rows|, key) {
      var k :| 0 <= k < |rows| && rows[k].key == Some(key) && rows[k].current == shown;
      EffectOfAll(s, rows, o, k);
      if k < |wanted| {
        ReplaceOfLine(s, o, wanted, rows, key, k);
      } else {
        ReplaceOfExtra(s, o, wanted, rows, key, k);
      }
    } else {
      ListedHasRow(s, o, wanted, rows, key);
      KeyUntouched(s, rows, |rows|, o, key);
      assert rows[..|rows|] == rows;
    }
  }

  // ----- When that is what the file says

  /**
   A Subtract that passed its preview takes away what the file lists for a key exactly when the file lists the
   key at most once. With more lines it takes away less, even where the lines together ask for more than
   there is.
   */
  lemma SubtractExactly(s: Stock, o: Options, wanted: seq<Option<Wanted>>, rows: seq<Row>, key: Key)
    requires o.op == Subtract && Clean(s, o, wanted, rows) && AllApplied(s, rows, |rows|, o)
    ensures Total(AfterAll(s, rows, o).records, o.slot, key) == Total(s.records, o.slot, key) - Csv(wanted, key)
      <==> Lines(wanted, key) <= 1
    ensures Total(AfterAll(s, rows, o).records, o.slot, key) >= Total(s.records, o.slot, key) - Csv(wanted, key)
  {
    SubtractTotals(s, o, wanted, rows, key);
    LastIsSum(wanted, key);
  }

  /** A key the file lists at most once becomes what the file says exactly when the record shown held it all. */
  lemma ReplaceMatchesFile(s: Stock, o: Options, wanted: seq<Option<Wanted>>, rows: seq<Row>, key: Key, shown: int)
    requires o.op == Replace && Clean(s, o, wanted, rows) && AllApplied(s, rows, |rows|, o)
    requires IsShown(rows, key, shown) && Lines(wanted, key) <= 1
    ensures Total(AfterAll(s, rows, o).records, o.slot, key) == Csv(wanted, key)
      <==> shown == Total(s.records, o.slot, key)
  {
    ReplaceTotals(s, o, wanted, rows, key, shown);
    ShownIsNatural(s, o, wanted, rows, key, shown);
    LastIsSum(wanted, key);
    if shown > 0 {
      LastOtherAndSum(wanted, key, shown);
    }
  }

  /**
   A key whose record shown holds it all becomes what the file says exactly when it is listed once at most, or
   held nothing.
   */
  lemma ReplaceOfAllShown(s: Stock, o: Options, wanted: seq<Option<Wanted>>, rows: seq<Row>, key: Key)
    requires o.op == Replace && Clean(s, o, wanted, rows) && AllApplied(s, rows, |rows|, o)
    requires IsShown(rows, key, Total(s.records, o.slot, key))
    ensures Total(AfterAll(s, rows, o).records, o.slot, key) == Csv(wanted, key)
      <==> Lines(wanted, key) <= 1 || Total(s.records, o.slot, key) == 0
  {
    var shown := Total(s.records, o.slot, key);
    ReplaceTotals(s, o, wanted, rows, key, shown);
    ShownIsNatural(s, o, wanted, rows, key, shown);
    LastIsSum(wanted, key);
    if shown > 0 {
      LastOtherAndSum(wanted, key, shown);
    }
  }

  lemma ShownIsNatural(s: Stock, o: Options, wanted: seq<Option<Wanted>>, rows: seq<Row>, key: Key, shown: int)
    requires Clean(s, o, wanted, rows) && IsShown(rows, key, shown)
    ensures shown >= 0
  {
    if Represented(rows, |rows|, key) {
      var k :| 0 <= k < |rows| && rows[k].key == Some(key) && rows[k].current == shown;
      FiguresOfRow(s, o, wanted, rows, k);
    }
  }

  ghost predicate OnePerKeyInSlot(records: seq<Record>, slot: Slot) {
    forall i, j | 0 <= i < j < |records| && records[i].slot == slot && records[j].slot == slot ::
      records[i].key != records[j].key
  }

  lemma {:induction false} ZeroesMatch(records: seq<Record>, slot: Slot, key: Key)
    requires forall i | 0 <= i < |records| && Matches(records[i], slot, key) :: records[i].quantity == 0
    ensures Total(records, slot, key) == 0
  {
    if records != [] {
      ZeroesMatch(records[..|records| - 1], slot, key);
    }
  }

  /** With one record per key in the slot, what is shown is all there is. */
  lemma OneRecordShowsAll(s: Stock, o: Options, wanted: seq<Option<Wanted>>, rows: seq<Row>, key: Key, shown: int)
    requires o.op == Replace && Clean(s, o, wanted, rows) && IsShown(rows, key, shown)
    requires OnePerKeyInSlot(s.records, o.slot)
    ensures shown == Total(s.records, o.slot, key)
  {
    if Represented(rows, |rows|, key) {
      var k :| 0 <= k < |rows| && rows[k].key == Some(key) && rows[k].current == shown;
      FiguresOfRow(s, o, wanted, rows, k);
      var record := rows[k].record;
      if record.Some? {
        OnlyOneMatches(s.records, o.slot, key, record.value);
      } else {
        NothingMatches(s.records, o.slot, key);
      }
    } else {
      assert forall i | 0 <= i < |s.records| && Matches(s.records[i], o.slot, key) :: s.records[i].quantity == 0;
      ZeroesMatch(s.records, o.slot, key);
    }
  }

  /**
   With one record per key, Replace leaves a key equal to the file exactly when the file lists it at most once
   or the slot held none of it. What the file leaves out becomes zero.
   */
  lemma ReplaceExactly(s: Stock, o: Options, wanted: seq<Option<Wanted>>, rows: seq<Row>, key: Key)
    requires o.op == Replace && Clean(s, o, wanted, rows) && AllApplied(s, rows, |rows|, o)
    requires OnePerKeyInSlot(s.records, o.slot)
    ensures Total(AfterAll(s, rows, o).records, o.slot, key) == Csv(wanted, key)
      <==> Lines(wanted, key) <= 1 || Total(s.records, o.slot, key) == 0
  {
    var shown := SomethingShown(rows, key);
    OneRecordShowsAll(s, o, wanted, rows, key, shown);
    ReplaceOfAllShown(s, o, wanted, rows, key);
  }

  // ----- From the file to the stock

  /** What the file means for the stock of the slot after a successful import, key by key. */
  ghost predicate Meant(s: Stock, now: Stock, o: Options, wanted: seq<Option<Wanted>>, rows: seq<Row>) {
    match o.op
    case Append => forall key :: Total(now.records, o.slot, key) == Total(s.records, o.slot, key) + Csv(wanted, key)
    case Subtract => forall key :: Total(now.records, o.slot, key) == Total(s.records, o.slot, key) - Last(wanted, key)
    case Replace =>
      forall key, shown | IsShown(rows, key, shown) ::
        Total(now.records, o.slot, key) == Total(s.records, o.slot, key) - shown + Left(wanted, key, shown)
    case CompareOnly => now == s
  }

  lemma AppliedIsMeant(s: Stock, o: Options, wanted: seq<Option<Wanted>>, rows: seq<Row>)
    requires Clean(s, o, wanted, rows) && AllApplied(s, rows, |rows|, o)
    ensures Meant(s, AfterAll(s, rows, o), o, wanted, rows)
  {
    var now := AfterAll(s, rows, o);
    match o.op {
      case Append =>
        forall key ensures Total(now.records, o.slot, key) == Total(s.records, o.slot, key) + Csv(wanted, key) {
          AppendAdds(s, o, wanted, rows, key);
        }
      case Subtract =>
        forall key ensures Total(now.records, o.slot, key) == Total(s.records, o.slot, key) - Last(wanted, key) {
          SubtractTotals(s, o, wanted, rows, key);
        }
      case Replace =>
        forall key, shown | IsShown(rows, key, shown)
          ensures Total(now.records, o.slot, key) == Total(s.records, o.slot, key) - shown + Left(wanted, key, shown)
        {
          ReplaceTotals(s, o, wanted, rows, key, shown);
        }
    }
  }

  lemma ResolvedArePositive(lines: seq<Line>, catalog: Catalog)
    ensures Positive(ResolveAll(lines, catalog))
  {
    var wanted := ResolveAll(lines, catalog);
    forall i | 0 <= i < |wanted| && wanted[i].Some? ensures wanted[i].value.quantity > 0 {
      assert wanted[i] == Resolve(lines[i], catalog);
    }
  }

  /** Extra rows never ask for review, so the failures of a preview are those of the file's lines. */
  lemma FailuresAreOfLines(records: seq<Record>, o: Options, wanted: seq<Option<Wanted>>, rows: seq<Row>)
    requires Previews(records, o.slot, o.op, wanted, rows)
    ensures Failures(rows[..|wanted|]) == 0 <==> AllPass(rows)
  {
    NoFailures(rows[..|wanted|]);
    assert forall i | 0 <= i < |wanted| :: rows[..|wanted|][i] == rows[i];
    forall i | |wanted| <= i < |rows| ensures !Fails(rows[i]) {
      assert Extra(records, o.slot, o.op, rows, i);
    }
  }

  // ----- The same over the fields of the lines

  /** A usable line about this part and colour. */
  ghost predicate Lists(line: Line, catalog: Catalog, key: Key) {
    && Usable(line, catalog)
    && catalog.parts[line.part] == key.part && catalog.colors[line.color.value] == key.color
  }

  /** The sum of the lines of a key. */
  ghost function FileSum(lines: seq<Line>, catalog: Catalog, key: Key): int {
    if lines == [] then 0
    else
      var line := lines[|lines| - 1];
      FileSum(lines[..|lines| - 1], catalog, key) + if Lists(line, catalog, key) then line.quantity.value else 0
  }

  ghost function FileCount(lines: seq<Line>, catalog: Catalog, key: Key): nat {
    if lines == [] then 0
    else FileCount(lines[..|lines| - 1], catalog, key) + if Lists(lines[|lines| - 1], catalog, key) then 1 else 0
  }

  /** The quantity of the last line of a key that differs from `but`; `otherwise` without one. */
  ghost function FileLast(lines: seq<Line>, catalog: Catalog, key: Key, but: int, otherwise: int): int {
    if lines == [] then otherwise
    else
      var line := lines[|lines| - 1];
      if Lists(line, catalog, key) && line.quantity.value != but then line.quantity.value
      else FileLast(lines[..|lines| - 1], catalog, key, but, otherwise)
  }

  lemma LastLine(lines: seq<Line>, catalog: Catalog, key: Key)
    requires lines != []
    ensures var n := |lines| - 1;
      && ResolveAll(lines, catalog)[..n] == ResolveAll(lines[..n], catalog)
      && (IsAbout(ResolveAll(lines, catalog)[n], key) <==> Lists(lines[n], catalog, key))
      && (Lists(lines[n], catalog, key) ==>
            ResolveAll(lines, catalog)[n].value.quantity == lines[n].quantity.value > 0)
  {
    var n := |lines| - 1;
    assert ResolveAll(lines, catalog)[..n] == ResolveAll(lines[..n], catalog);
    ResolveByFields(lines[n], catalog);
  }

  lemma {:induction false} SumsOfFile(lines: seq<Line>, catalog: Catalog, key: Key)
    ensures Csv(ResolveAll(lines, catalog), key) == FileSum(lines, catalog, key)
    ensures Lines(ResolveAll(lines, catalog), key) == FileCount(lines, catalog, key)
  {
    if lines != [] {
      SumsOfFile(lines[..|lines| - 1], catalog, key);
      LastLine(lines, catalog, key);
    }
  }

  lemma {:induction false} LastsOfFile(lines: seq<Line>, catalog: Catalog, key: Key, shown: int)
    ensures Last(ResolveAll(lines, catalog), key) == FileLast(lines, catalog, key, 0, 0)
    ensures LastOther(ResolveAll(lines, catalog), key, shown) == FileLast(lines, catalog, key, shown, shown)
  {
    if lines != [] {
      LastsOfFile(lines[..|lines| - 1], catalog, key, shown);
      LastLine(lines, catalog, key);
    }
  }

  /** The stock of every part and colour of the slot after a successful import, in terms of the lines. */
  ghost predicate MeantByFile(
    s: Stock, now: Stock, o: Options, lines: seq<Line>, catalog: Catalog, rows: seq<Row>)
  {
    match o.op
    case Append =>
      forall key :: Total(now.records, o.slot, key) == Total(s.records, o.slot, key) + FileSum(lines, catalog, key)
    case Subtract =>
      forall key ::
        Total(now.records, o.slot, key) == Total(s.records, o.slot, key) - FileLast(lines, catalog, key, 0, 0)
    case Replace =>
      forall key, shown | IsShown(rows, key, shown) ::
        Total(now.records, o.slot, key) == Total(s.records, o.slot, key) - shown
          + if FileCount(lines, catalog, key) == 0 then 0
            else if shown == 0 then FileSum(lines, catalog, key)
            else FileLast(lines, catalog, key, shown, shown)
    case CompareOnly => now == s
  }

  lemma MeantIsByFile(s: Stock, now: Stock, o: Options, lines: seq<Line>, catalog: Catalog, rows: seq<Row>)
    requires Meant(s, now, o, ResolveAll(lines, catalog), rows)
    ensures MeantByFile(s, now, o, lines, catalog, rows)
  {
    forall key
      ensures Csv(ResolveAll(lines, catalog), key) == FileSum(lines, catalog, key)
      ensures Lines(ResolveAll(lines, catalog), key) == FileCount(lines, catalog, key)
    {
      SumsOfFile(lines, catalog, key);
    }
    forall key, shown
      ensures Last(ResolveAll(lines, catalog), key) == FileLast(lines, catalog, key, 0, 0)
      ensures LastOther(ResolveAll(lines, catalog), key, shown) == FileLast(lines, catalog, key, shown, shown)
    {
      LastsOfFile(lines, catalog, key, shown);
    }
  }

  /** Every line can be used, and none asks for more than is there to subtract. */
  ghost predicate AllUsable(o: Options, lines: seq<Line>, catalog: Catalog, rows: seq<Row>) {
    |lines| <= |rows| && forall i | 0 <= i < |lines| :: !Refuses(o.op, catalog, lines[i], rows[i])
  }

  lemma {:induction false} NoRefusals(
    o: Options, catalog: Catalog, lines: seq<Line>, rows: seq<Row>, n: nat)
    requires n <= |lines| <= |rows|
    ensures Refusals(o.op, catalog, lines[..n], rows) == 0
      <==> forall i | 0 <= i < n :: !Refuses(o.op, catalog, lines[i], rows[i])
    decreases n
  {
    if n > 0 {
      NoRefusals(o, catalog, lines, rows, n - 1);
      assert lines[..n][..n - 1] == lines[..n - 1];
    }
  }

  // ----- The report over the figures of the rows

  ghost function Distance(n: int): nat {
    if n < 0 then -n else n
  }

  /** How many rows show a difference. */
  ghost function Changes(rows: seq<Row>): nat {
    if rows == [] then 0
    else Changes(rows[..|rows| - 1]) + if rows[|rows| - 1].difference != 0 then 1 else 0
  }

  /** The differences shown, whatever their sign, added up. */
  ghost function Moved(rows: seq<Row>): nat {
    if rows == [] then 0 else Moved(rows[..|rows| - 1]) + Distance(rows[|rows| - 1].difference)
  }

  /** In a preview that passed, a row changes stock where it shows a difference, and the report counts that. */
  ghost predicate CountsItsDifference(row: Row, o: Options) {
    (Writes(row) <==> row.difference != 0) && (Writes(row) ==> Amount(row, o) == Distance(row.difference))
  }

  lemma RowIsReported(s: Stock, o: Options, wanted: seq<Option<Wanted>>, rows: seq<Row>, i: nat)
    requires Clean(s, o, wanted, rows) && i < |rows|
    ensures CountsItsDifference(rows[i], o)
  {
    if i < |wanted| {
      LineOf(s, o, wanted, rows, i);
    } else {
      assert Extra(s.records, o.slot, o.op, rows, i);
    }
  }

  lemma {:induction false} ReportOfFigures(rows: seq<Row>, o: Options)
    requires forall i | 0 <= i < |rows| :: CountsItsDifference(rows[i], o)
    ensures Written(rows) == Changes(rows) && Amounts(rows, o) == Moved(rows)
  {
    if rows != [] {
      ReportOfFigures(rows[..|rows| - 1], o);
      assert CountsItsDifference(rows[|rows| - 1], o);
    }
  }

  lemma CleanIsReported(s: Stock, o: Options, wanted: seq<Option<Wanted>>, rows: seq<Row>)
    requires Clean(s, o, wanted, rows)
    ensures Written(rows) == Changes(rows) && Amounts(rows, o) == Moved(rows)
  {
    forall i | 0 <= i < |rows| ensures CountsItsDifference(rows[i], o) {
      RowIsReported(s, o, wanted, rows, i);
    }
    ReportOfFigures(rows, o);
  }

  /** What rows that were all applied have done to the stock, and what the report says about it. */
  lemma AppliedAsListed(s: Stock, o: Options, lines: seq<Line>, catalog: Catalog, rows: seq<Row>, report: Report)
    requires Clean(s, o, ResolveAll(lines, catalog), rows) && AllApplied(s, rows, |rows|, o)
    requires Reports(report, rows, o) && report.failed == 0 && report.processed == |rows|
    ensures MeantByFile(s, AfterAll(s, rows, o), o, lines, catalog, rows)
    ensures report == Report(|rows|, Changes(rows), 0, Moved(rows))
  {
    AppliedIsMeant(s, o, ResolveAll(lines, catalog), rows);
    MeantIsByFile(s, AfterAll(s, rows, o), o, lines, catalog, rows);
    CleanIsReported(s, o, ResolveAll(lines, catalog), rows);
    assert rows[..|rows|] == rows;
  }

  /**
   The dialog's two steps with nothing in between: preview the file, then apply the preview. An import other
   than a comparison goes through exactly when every line can be used and, subtracting, asks for no more than
   the stock shown.
   */
  method PreviewAndImport(
    importer: Importer, lines: seq<Line>, catalog: Catalog, o: Options, faults: Faults)
    returns (ok: bool, preview: Preview, report: Report)
    requires importer.db.Idle() && Lawful(importer.db.committed.records)
    modifies importer.db
    ensures importer.db.Idle()
    ensures Previews(old(importer.db.committed.records), o.slot, o.op, ResolveAll(lines, catalog), preview.rows)
    ensures !ok ==> importer.db.committed == old(importer.db.committed)
    ensures Booked(old(importer.db.committed), importer.db.committed)
    ensures ok ==>
      && MeantByFile(old(importer.db.committed), importer.db.committed, o, lines, catalog, preview.rows)
      && SameElsewhere(old(importer.db.committed), importer.db.committed, o.slot)
    ensures ok && o.op == CompareOnly ==> report == Report(|lines|, 0, 0, 0)
    ensures ok && o.op != CompareOnly ==>
      report == Report(|preview.rows|, Changes(preview.rows), 0, Moved(preview.rows))
    ensures o.op != CompareOnly && !AllUsable(o, lines, catalog, preview.rows) ==> !ok
    ensures faults.Quiet() && o.maker.Some? ==>
      (ok <==> |preview.rows| > 0 && (o.op == CompareOnly || AllUsable(o, lines, catalog, preview.rows)))
  {
    var s := importer.db.committed;
    ghost var wanted := ResolveAll(lines, catalog);
    preview := PreviewOwnedParts(s.records, o.slot, o.op, lines, catalog);
    ResolvedArePositive(lines, catalog);
    FailuresAreOfLines(s.records, o, wanted, preview.rows);
    NoRefusals(o, catalog, lines, preview.rows, |lines|);
    assert lines[..|lines|] == lines;
    if preview.failed == 0 && o.op != CompareOnly {
      PreviewIsApplicable(s, o, wanted, preview.rows);
    }
    ok, report := importer.ImportPreview(preview, o, faults);
    if ok && o.op != CompareOnly {
      AppliedAsListed(s, o, lines, catalog, preview.rows, report);
    }
  }
}
