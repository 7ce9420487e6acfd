/** importPreview: applying previewed rows to the stock, and what previewing and applying together do to it. */
module InventoryApply {
  import opened Wrappers
  import opened Sql
  import opened InventoryStock
  import opened InventoryPreview

  /** `maker` is the LEGO manufacturer new stock is booked under, when the database knows it. */
  datatype Options = Options(slot: Slot, op: Operation, maker: Option<int>)

  /** The row is one that changes stock. */
  predicate Writes(row: Row) {
    !Fails(row) && row.status != NoChange && row.status != Same
  }

  /** The repository accepts what the row asks of it. */
  predicate Applies(s: Stock, row: Row, o: Options) {
    row.key.Some? &&
    match o.op
    case Append => o.maker.Some? && row.source > 0
    case Replace =>
      if row.current == 0 then o.maker.Some? && row.resulting > 0
      else row.record.Some? && row.record.value < |s.records| && row.resulting >= 0
    case Subtract =>
      row.record.Some? && row.source <= row.current && row.record.value < |s.records| && row.resulting >= 0
    case CompareOnly => false
  }

  /** The stock after the row, when the repository accepts it. */
  function After(s: Stock, row: Row, o: Options): Stock
    requires Applies(s, row, o)
  {
    match o.op
    case Append => Increased(s, o.slot, row.key.value, o.maker.value, row.source)
    case Replace =>
      if row.current == 0 then Increased(s, o.slot, row.key.value, o.maker.value, row.resulting)
      else WithQuantity(s, row.record.value, row.resulting)
    case Subtract => WithQuantity(s, row.record.value, row.resulting)
  }

  // ----- One row

  /** Totals and log move together at every slot and key. */
  ghost predicate Booked(s: Stock, t: Stock) {
    forall slot, key ::
      Total(t.records, slot, key) - Total(s.records, slot, key)
        == Logged(t.movements, slot, key) - Logged(s.movements, slot, key)
  }

  /** Records of other slots are where and as they were. */
  ghost predicate SameElsewhere(s: Stock, t: Stock, slot: Slot) {
    && |s.records| <= |t.records|
    && (forall i | 0 <= i < |s.records| && s.records[i].slot != slot :: t.records[i] == s.records[i])
    && forall i | |s.records| <= i < |t.records| :: t.records[i].slot == slot
  }

  /** A row that still shows the stock it is about: the record it names is unchanged. */
  ghost predicate UpToDate(s: Stock, slot: Slot, row: Row) {
    row.record.Some? ==>
      && row.record.value < |s.records| && row.key.Some?
      && Matches(s.records[row.record.value], slot, row.key.value)
      && s.records[row.record.value].quantity == row.current
  }

  /** What a preview guarantees about the figures of one row. */
  ghost predicate Figures(row: Row, o: Options) {
    && row.key.Some? && row.difference == (if o.op == Append then row.source else row.resulting - row.current)
    && (row.status == NoChange || row.status == Same ==> row.difference == 0)
    && (o.op == Append ==> row.source > 0) && row.resulting >= 0
    && (o.op == Replace && row.current == 0 ==> row.resulting > 0)
    && (o.op == Subtract ==> row.record.Some? && row.source <= row.current)
    && (o.op == Replace && row.current != 0 ==> row.record.Some?)
  }

  /** Whatever a row shows, current or stale, totals and log stay in step. */
  lemma RowIsBooked(s: Stock, row: Row, o: Options)
    requires Applies(s, row, o)
    ensures Booked(s, After(s, row, o)) && |s.records| <= |After(s, row, o).records|
  {
    if o.op == Append || (o.op == Replace && row.current == 0) {
      IncreaseChanges(s, o.slot, row.key.value, o.maker.value, if o.op == Append then row.source else row.resulting);
    } else {
      SetChanges(s, row.record.value, row.resulting);
    }
  }

  // ----- All rows

  /** The sum of the differences shown for one key. */
  function Difference(rows: seq<Row>, key: Key): int {
    if rows == [] then 0
    else
      var row := rows[|rows| - 1];
      Difference(rows[..|rows| - 1], key) + if row.key == Some(key) then row.difference else 0
  }

  /** Rows about one key show the same record: the same query on an unchanged table. */
  ghost predicate SameShown(rows: seq<Row>) {
    forall i, j | 0 <= i < |rows| && 0 <= j < |rows| && rows[i].key.Some? && rows[i].key == rows[j].key ::
      rows[i].record == rows[j].record && rows[i].current == rows[j].current
  }

  /** The rows show the stock `s`. */
  ghost predicate Applicable(s: Stock, rows: seq<Row>, o: Options) {
    && (forall i | 0 <= i < |rows| :: Figures(rows[i], o))
    && (o.op != Append ==> SameShown(rows) && forall i | 0 <= i < |rows| :: UpToDate(s, o.slot, rows[i]))
  }

  /** Records keep their place and their identity; other slots keep their quantities too. */
  ghost predicate Grown(s: Stock, now: Stock, slot: Slot) {
    && SameElsewhere(s, now, slot)
    && forall i | 0 <= i < |s.records| :: now.records[i] == s.records[i].(quantity := now.records[i].quantity)
  }

  /** The stock after all the rows, one after the other. */
  function AfterAll(s: Stock, rows: seq<Row>, o: Options): Stock {
    if rows == [] then s
    else
      var t, row := AfterAll(s, rows[..|rows| - 1], o), rows[|rows| - 1];
      if Writes(row) && Applies(t, row, o) then After(t, row, o) else t
  }

  lemma OneMore(s: Stock, rows: seq<Row>, n: nat, o: Options)
    requires n < |rows|
    ensures var t := AfterAll(s, rows[..n], o);
      AfterAll(s, rows[..n + 1], o) == if Writes(rows[n]) && Applies(t, rows[n], o) then After(t, rows[n], o) else t
  {
    assert rows[..n + 1][..n] == rows[..n];
  }

  /** None of the first `n` rows fails, and each that changes stock is accepted when its turn comes. */
  ghost predicate AllApplied(s: Stock, rows: seq<Row>, n: nat, o: Options) {
    n <= |rows| && forall i: nat | i < n :: Accepted(AfterAll(s, rows[..i], o), rows[i], o)
  }

  ghost predicate Accepted(now: Stock, row: Row, o: Options) {
    !Fails(row) && (Writes(row) ==> Applies(now, row, o))
  }

  /** Applying a row changes its key only, by whatever the record it names then needs. */
  lemma RowChangesItsKey(s: Stock, now: Stock, row: Row, o: Options) returns (change: int)
    requires Figures(row, o) && (o.op != Append ==> UpToDate(s, o.slot, row)) && Grown(s, now, o.slot)
    requires Writes(row) && Applies(now, row, o)
    ensures ChangedAt(now, After(now, row, o), o.slot, row.key.value, change)
    ensures o.op == Append || (o.op == Replace && row.current == 0) ==> change == row.difference
    ensures !(o.op == Append || (o.op == Replace && row.current == 0)) ==>
      row.record.Some? && change == row.resulting - now.records[row.record.value].quantity
  {
    if o.op == Append || (o.op == Replace && row.current == 0) {
      change := if o.op == Append then row.source else row.resulting;
      IncreaseChanges(now, o.slot, row.key.value, o.maker.value, change);
    } else {
      change := row.resulting - now.records[row.record.value].quantity;
      assert now.records[row.record.value].slot == o.slot && now.records[row.record.value].key == row.key.value;
      SetChanges(now, row.record.value, row.resulting);
    }
  }

  lemma StaysGrown(s: Stock, now: Stock, next: Stock, slot: Slot, key: Key, change: int)
    requires Grown(s, now, slot) && ChangedAt(now, next, slot, key, change)
    ensures Grown(s, next, slot)
  {
    forall i | 0 <= i < |s.records| ensures next.records[i] == s.records[i].(quantity := next.records[i].quantity) {
      assert now.records[i] == s.records[i].(quantity := now.records[i].quantity);
    }
  }

  /** The next row of an applicable preview keeps the records in place, and goes through if the maker is known. */
  lemma NextRow(s: Stock, now: Stock, row: Row, o: Options)
    requires Figures(row, o) && (o.op != Append ==> UpToDate(s, o.slot, row)) && Grown(s, now, o.slot)
    requires o.op != CompareOnly
    ensures Writes(row) && Applies(now, row, o) ==> Grown(s, After(now, row, o), o.slot)
    ensures o.maker.Some? ==> Applies(now, row, o)
  {
    if Writes(row) && Applies(now, row, o) {
      var change := RowChangesItsKey(s, now, row, o);
      StaysGrown(s, now, After(now, row, o), o.slot, row.key.value, change);
    }
  }

  lemma {:induction false} GrownThroughout(s: Stock, rows: seq<Row>, n: nat, o: Options)
    requires Applicable(s, rows, o) && n <= |rows| && o.op != CompareOnly
    ensures Grown(s, AfterAll(s, rows[..n], o), o.slot)
    decreases n
  {
    if n > 0 {
      GrownThroughout(s, rows, n - 1, o);
      OneMore(s, rows, n - 1, o);
      assert Figures(rows[n - 1], o);
      NextRow(s, AfterAll(s, rows[..n - 1], o), rows[n - 1], o);
    }
  }

  // ----- The stock of one key after all rows

  /** Rows of the key add to the stock instead of setting it. */
  predicate Adds(o: Options, shown: int) {
    o.op == Append || (o.op == Replace && shown == 0)
  }

  /** The quantity that the last row of the key to write anything sets. */
  function LastSet(rows: seq<Row>, key: Key, shown: int): int {
    if rows == [] then shown
    else
      var row := rows[|rows| - 1];
      if row.key == Some(key) && Writes(row) then row.resulting else LastSet(rows[..|rows| - 1], key, shown)
  }

  /** What the rows do to the stock of a key for which they show `shown`. */
  function Effect(rows: seq<Row>, key: Key, o: Options, shown: int): int {
    if Adds(o, shown) then Difference(rows, key) else LastSet(rows, key, shown) - shown
  }

  /** `shown` is what the rows take to be the stock of the key: that of one record, or nothing. */
  ghost predicate ShowsFor(rows: seq<Row>, key: Key, record: Option<nat>, shown: int) {
    forall i | 0 <= i < |rows| && rows[i].key == Some(key) :: rows[i].record == record && rows[i].current == shown
  }

  /** The record that rows of the key set holds what the last of them said. */
  ghost predicate Stands(s: Stock, now: Stock, slot: Slot, key: Key, record: Option<nat>, shown: int, quantity: int) {
    && record.Some? && record.value < |s.records| && record.value < |now.records|
    && Matches(s.records[record.value], slot, key) && s.records[record.value].quantity == shown
    && now.records[record.value].quantity == quantity
  }

  /** One row more, seen from one key. */
  lemma EffectStep(s: Stock, now: Stock, row: Row, o: Options, key: Key, record: Option<nat>, shown: int)
    requires Figures(row, o) && (o.op != Append ==> UpToDate(s, o.slot, row)) && Grown(s, now, o.slot)
    requires Accepted(now, row, o)
    requires row.key == Some(key) && o.op != Append ==> row.record == record && row.current == shown
    ensures var next := if Writes(row) then After(now, row, o) else now;
      && (row.key != Some(key) ==> Total(next.records, o.slot, key) == Total(now.records, o.slot, key))
      && (row.key == Some(key) && Adds(o, shown) ==>
            Total(next.records, o.slot, key) == Total(now.records, o.slot, key) + row.difference)
    ensures var next := if Writes(row) then After(now, row, o) else now;
      forall q | Stands(s, now, o.slot, key, record, shown, q) && !Adds(o, shown) ::
        var r := if row.key == Some(key) && Writes(row) then row.resulting else q;
        Stands(s, next, o.slot, key, record, shown, r)
        && Total(next.records, o.slot, key) == Total(now.records, o.slot, key) + r - q
  {
    if Writes(row) {
      var change := RowChangesItsKey(s, now, row, o);
      var next := After(now, row, o);
      assert Total(next.records, o.slot, key)
        == Total(now.records, o.slot, key) + if key == row.key.value then change else 0;
      if record.Some? && record.value < |s.records| && Matches(s.records[record.value], o.slot, key)
         && row.key != Some(key)
      {
        assert next.records[record.value] == now.records[record.value];
      }
    }
  }

  lemma EffectLonger(rows: seq<Row>, n: nat, key: Key, o: Options, shown: int)
    requires n < |rows|
    ensures var row := rows[n];
      && Difference(rows[..n + 1], key)
         == Difference(rows[..n], key) + (if row.key == Some(key) then row.difference else 0)
      && LastSet(rows[..n + 1], key, shown)
         == if row.key == Some(key) && Writes(row) then row.resulting else LastSet(rows[..n], key, shown)
  {
    assert rows[..n + 1][..n] == rows[..n];
  }

  /** What the rows before `n` have made of the key. */
  ghost predicate EffectHolds(
    s: Stock, rows: seq<Row>, n: nat, o: Options, key: Key, record: Option<nat>, shown: int)
    requires n <= |rows|
  {
    var now := AfterAll(s, rows[..n], o);
    && Total(now.records, o.slot, key) == Total(s.records, o.slot, key) + Effect(rows[..n], key, o, shown)
    && (!Adds(o, shown) ==> Stands(s, now, o.slot, key, record, shown, LastSet(rows[..n], key, shown)))
  }

  lemma EffectOfNone(s: Stock, rows: seq<Row>, o: Options, key: Key, record: Option<nat>, shown: int)
    requires Adds(o, shown) || Stands(s, s, o.slot, key, record, shown, shown)
    ensures EffectHolds(s, rows, 0, o, key, record, shown)
  {
    assert rows[..0] == [] && AfterAll(s, rows[..0], o) == s;
  }

  lemma EffectOfRow(s: Stock, rows: seq<Row>, n: nat, o: Options, key: Key, record: Option<nat>, shown: int)
    requires Applicable(s, rows, o) && AllApplied(s, rows, n + 1, o) && o.op != CompareOnly && n < |rows|
    requires o.op != Append ==> ShowsFor(rows, key, record, shown)
    requires EffectHolds(s, rows, n, o, key, record, shown)
    ensures EffectHolds(s, rows, n + 1, o, key, record, shown)
  {
    var now := AfterAll(s, rows[..n], o);
    GrownThroughout(s, rows, n, o);
    OneMore(s, rows, n, o);
    EffectLonger(rows, n, key, o, shown);
    assert Figures(rows[n], o) && Accepted(now, rows[n], o);
    EffectStep(s, now, rows[n], o, key, record, shown);
  }

  lemma {:induction false} EffectOfRows(
    s: Stock, rows: seq<Row>, n: nat, o: Options, key: Key, record: Option<nat>, shown: int)
    requires Applicable(s, rows, o) && AllApplied(s, rows, n, o) && o.op != CompareOnly
    requires o.op != Append ==> ShowsFor(rows, key, record, shown)
    requires Adds(o, shown) || Stands(s, s, o.slot, key, record, shown, shown)
    ensures EffectHolds(s, rows, n, o, key, record, shown)
    decreases n
  {
    if n == 0 {
      EffectOfNone(s, rows, o, key, record, shown);
    } else {
      EffectOfRows(s, rows, n - 1, o, key, record, shown);
      EffectOfRow(s, rows, n - 1, o, key, record, shown);
    }
  }

  lemma OtherRow(s: Stock, now: Stock, row: Row, o: Options, key: Key)
    requires Figures(row, o) && (o.op != Append ==> UpToDate(s, o.slot, row)) && Grown(s, now, o.slot)
    requires Accepted(now, row, o) && row.key != Some(key)
    ensures var next := if Writes(row) then After(now, row, o) else now;
      Total(next.records, o.slot, key) == Total(now.records, o.slot, key)
  {
    if Writes(row) {
      var change := RowChangesItsKey(s, now, row, o);
      assert Total(After(now, row, o).records, o.slot, key) == Total(now.records, o.slot, key) + 0;
    }
  }

  /** One of the rows, after those before it. */
  lemma RowOfAnother(s: Stock, rows: seq<Row>, n: nat, o: Options, key: Key)
    requires Applicable(s, rows, o) && AllApplied(s, rows, n + 1, o) && o.op != CompareOnly
    requires n < |rows| && rows[n].key != Some(key)
    ensures Total(AfterAll(s, rows[..n + 1], o).records, o.slot, key)
      == Total(AfterAll(s, rows[..n], o).records, o.slot, key)
  {
    var now := AfterAll(s, rows[..n], o);
    GrownThroughout(s, rows, n, o);
    OneMore(s, rows, n, o);
    assert Figures(rows[n], o) && Accepted(now, rows[n], o);
    OtherRow(s, now, rows[n], o, key);
  }

  /** A key no row is about keeps its stock. */
  lemma {:induction false} KeyUntouched(s: Stock, rows: seq<Row>, n: nat, o: Options, key: Key)
    requires Applicable(s, rows, o) && AllApplied(s, rows, n, o) && o.op != CompareOnly
    requires forall i | 0 <= i < |rows| :: rows[i].key != Some(key)
    ensures Total(AfterAll(s, rows[..n], o).records, o.slot, key) == Total(s.records, o.slot, key)
    decreases n
  {
    if n == 0 {
      assert AfterAll(s, rows[..0], o) == s;
    } else {
      KeyUntouched(s, rows, n - 1, o, key);
      RowOfAnother(s, rows, n - 1, o, key);
    }
  }

  /** The stock of a key after all rows, given the record they show for it. */
  lemma EffectOfAll(s: Stock, rows: seq<Row>, o: Options, k: nat)
    requires Applicable(s, rows, o) && AllApplied(s, rows, |rows|, o) && o.op != CompareOnly && k < |rows|
    ensures var key := rows[k].key.value;
      Total(AfterAll(s, rows, o).records, o.slot, key)
        == Total(s.records, o.slot, key) + Effect(rows, key, o, rows[k].current)
  {
    var row := rows[k];
    assert Figures(row, o);
    assert rows[..|rows|] == rows;
    EffectOfRows(s, rows, |rows|, o, row.key.value, row.record, row.current);
  }

  /**
   Where a key has a single row, and for Append always, applying the preview moves the stock of the key by
   exactly the differences shown.
   */
  lemma MovedByTheDifferences(s: Stock, rows: seq<Row>, o: Options, key: Key)
    requires Applicable(s, rows, o) && AllApplied(s, rows, |rows|, o) && o.op != CompareOnly
    requires o.op == Append || Once(rows, key)
    ensures Total(AfterAll(s, rows, o).records, o.slot, key)
      == Total(s.records, o.slot, key) + Difference(rows, key)
  {
    if k: nat :| k < |rows| && rows[k].key == Some(key) {
      EffectOfAll(s, rows, o, k);
      if o.op != Append {
        forall i | 0 <= i < |rows| ensures Figures(rows[i], o) && !Fails(rows[i]) {
          assert Accepted(AfterAll(s, rows[..i], o), rows[i], o);
        }
        EffectOfOne(rows, key, o, rows[k].record, rows[k].current);
      }
    } else {
      NoRow(rows, key, 0);
      KeyUntouched(s, rows, |rows|, o, key);
      assert rows[..|rows|] == rows;
    }
  }

  /** At most one row is about the key. */
  ghost predicate Once(rows: seq<Row>, key: Key) {
    forall i, j | 0 <= i < j < |rows| && rows[i].key == Some(key) :: rows[j].key != Some(key)
  }

  lemma {:induction false} NoRow(rows: seq<Row>, key: Key, shown: int)
    requires forall i | 0 <= i < |rows| :: rows[i].key != Some(key)
    ensures Difference(rows, key) == 0 && LastSet(rows, key, shown) == shown
  {
    if rows != [] {
      NoRow(rows[..|rows| - 1], key, shown);
    }
  }

  /** A single row moves the stock by the difference it shows, whether it adds or sets. */
  lemma {:induction false} EffectOfOne(rows: seq<Row>, key: Key, o: Options, record: Option<nat>, shown: int)
    requires Once(rows, key) && ShowsFor(rows, key, record, shown) && o.op != Append
    requires forall i | 0 <= i < |rows| :: Figures(rows[i], o) && !Fails(rows[i])
    ensures Effect(rows, key, o, shown) == Difference(rows, key)
  {
    if rows != [] {
      var front, row := rows[..|rows| - 1], rows[|rows| - 1];
      assert Figures(row, o) && !Fails(row);
      if row.key == Some(key) {
        NoRow(front, key, shown);
      } else {
        EffectOfOne(front, key, o, record, shown);
      }
    }
  }

  /** The loop body of importPreview for one row. */
  method ApplyRow(s: Stock, row: Row, o: Options, fault: bool) returns (ok: bool, now: Stock)
    ensures row.status == Error || row.status == NeedsReview ==> !ok
    ensures row.status == NoChange || row.status == Same ==> ok && now == s
    ensures ok && Writes(row) ==>
      && row.key.Some? && o.op != CompareOnly
      && (o.op == Append ==> o.maker.Some? && row.source > 0)
      && (o.op == Subtract ==> row.record.Some? && row.source <= row.current)
    ensures ok <==> Accepted(s, row, o) && (Writes(row) ==> !fault)
    ensures now == if ok && Writes(row) then After(s, row, o) else s
  {
    now := s;
    if Fails(row) {
      return false, now;
    }
    if !Writes(row) {
      return true, now;
    }
    ok := Applies(s, row, o) && !fault;
    if ok {
      now := After(s, row, o);
    }
  }

  /** What importPreview reports. */
  datatype Report = Report(processed: nat, imported: nat, failed: nat, quantity: int)

  function Amount(row: Row, o: Options): int {
    if o.op == Replace then if row.difference < 0 then -row.difference else row.difference else row.source
  }

  lemma BookedOnward(s: Stock, t: Stock, u: Stock)
    requires Booked(s, t) && Booked(t, u)
    ensures Booked(s, u)
  {
  }

  /** Nothing the preview or the outside world says stops a row. */
  ghost predicate Undisturbed(rows: seq<Row>, o: Options, fault: nat -> bool) {
    o.maker.Some? && forall i: nat | i < |rows| :: !Fails(rows[i]) && !fault(i)
  }

  /** How many rows change stock, and by how much in all. */
  function Written(rows: seq<Row>): nat {
    if rows == [] then 0 else Written(rows[..|rows| - 1]) + if Writes(rows[|rows| - 1]) then 1 else 0
  }

  function Amounts(rows: seq<Row>, o: Options): int {
    if rows == [] then 0
    else
      var row := rows[|rows| - 1];
      Amounts(rows[..|rows| - 1], o) + if Writes(row) then Amount(row, o) else 0
  }

  /** The report so far: exact while no row has failed. */
  ghost predicate Reports(report: Report, rows: seq<Row>, o: Options) {
    && report.processed <= |rows|
    && (report.failed == 0 ==>
          && report.imported == Written(rows[..report.processed])
          && report.quantity == Amounts(rows[..report.processed], o))
  }

  method Count(report: Report, ghost rows: seq<Row>, row: Row, o: Options, ok: bool) returns (r: Report)
    requires Reports(report, rows, o) && report.processed < |rows| && row == rows[report.processed]
    ensures Reports(r, rows, o) && r.processed == report.processed + 1
    ensures r.failed == report.failed + if ok then 0 else 1
  {
    assert rows[..report.processed + 1][..report.processed] == rows[..report.processed];
    r := report.(processed := report.processed + 1, failed := report.failed + if ok then 0 else 1);
    if ok && Writes(row) {
      r := r.(imported := r.imported + 1, quantity := r.quantity + Amount(row, o));
    }
  }

  /** Where the loop of importPreview stands. */
  ghost predicate Loop(s: Stock, now: Stock, rows: seq<Row>, report: Report, o: Options, fault: nat -> bool) {
    && Reports(report, rows, o) && Booked(s, now)
    && (report.failed == 0 ==>
          now == AfterAll(s, rows[..report.processed], o) && AllApplied(s, rows, report.processed, o))
    && (Applicable(s, rows, o) ==> Grown(s, now, o.slot))
    && (Applicable(s, rows, o) && Undisturbed(rows, o, fault) ==> report.failed == 0)
  }

  lemma AppliedStep(s: Stock, rows: seq<Row>, n: nat, o: Options)
    requires n < |rows| && AllApplied(s, rows, n, o) && Accepted(AfterAll(s, rows[..n], o), rows[n], o)
    ensures AllApplied(s, rows, n + 1, o)
    ensures var t := AfterAll(s, rows[..n], o);
      AfterAll(s, rows[..n + 1], o) == if Writes(rows[n]) then After(t, rows[n], o) else t
  {
    OneMore(s, rows, n, o);
  }

  lemma LoopSteps(
    s: Stock, now: Stock, next: Stock, rows: seq<Row>, report: Report, counted: Report, o: Options,
    fault: nat -> bool, ok: bool)
    requires Loop(s, now, rows, report, o, fault) && report.processed < |rows| && o.op != CompareOnly
    requires var row := rows[report.processed];
      && (ok <==> Accepted(now, row, o) && (Writes(row) ==> !fault(report.processed)))
      && next == if ok && Writes(row) then After(now, row, o) else now
    requires Reports(counted, rows, o) && counted.processed == report.processed + 1
    requires counted.failed == report.failed + if ok then 0 else 1
    ensures Loop(s, next, rows, counted, o, fault)
  {
    var n, row := report.processed, rows[report.processed];
    if report.failed == 0 && ok {
      AppliedStep(s, rows, n, o);
    }
    if Applicable(s, rows, o) {
      assert Figures(row, o);
      NextRow(s, now, row, o);
    }
    if ok && Writes(row) {
      RowIsBooked(now, row, o);
      BookedOnward(s, now, next);
    }
  }

  /**
   The loop of importPreview. A failing row is counted and the loop goes on. Without failures every row was
   accepted in its turn; totals and log move together in any case.
   */
  method ApplyRows(s: Stock, rows: seq<Row>, o: Options, fault: nat -> bool) returns (report: Report, now: Stock)
    requires o.op != CompareOnly
    ensures report.processed == |rows| && Loop(s, now, rows, report, o, fault)
    ensures report.failed == 0 ==> now == AfterAll(s, rows, o) && AllApplied(s, rows, |rows|, o)
  {
    report, now := Report(0, 0, 0, 0), s;
    while report.processed < |rows|
      invariant report.processed <= |rows| && Loop(s, now, rows, report, o, fault)
    {
      var row := rows[report.processed];
      var ok, next := ApplyRow(now, row, o, fault(report.processed));
      var counted := Count(report, rows, row, o, ok);
      LoopSteps(s, now, next, rows, report, counted, o, fault, ok);
      report, now := counted, next;
    }
    assert rows[..report.processed] == rows;
  }

  // ----- importPreview

  class Importer {
    const db: Connection<Stock>

    constructor (db: Connection<Stock>)
      ensures this.db == db
    {
      this.db := db;
    }

    /** Comparing writes nothing, an unusable preview is refused whole, and a failure leaves the stock alone. */
    method ImportPreview(p: Preview, o: Options, faults: Faults) returns (ok: bool, report: Report)
      requires db.Idle()
      modifies db
      ensures db.Idle()
      ensures !ok || o.op == CompareOnly ==> db.committed == old(db.committed)
      ensures |p.rows| == 0 ==> !ok
      ensures o.op != CompareOnly && p.failed > 0 ==> !ok
      ensures o.op == CompareOnly ==> (ok <==> |p.rows| > 0) && (ok ==> report == Report(p.processed, 0, 0, 0))
      ensures Booked(old(db.committed), db.committed)
      ensures ok && o.op != CompareOnly ==>
        && report.failed == 0 && report.processed == |p.rows| && Reports(report, p.rows, o)
        && db.committed == AfterAll(old(db.committed), p.rows, o)
        && AllApplied(old(db.committed), p.rows, |p.rows|, o)
      ensures Applicable(old(db.committed), p.rows, o) ==> Grown(old(db.committed), db.committed, o.slot)
      ensures |p.rows| > 0 && p.failed == 0 && !faults.begin && !faults.commit ==>
        (Applicable(old(db.committed), p.rows, o) && Undisturbed(p.rows, o, faults.statement) ==> ok)
    {
      report := Report(0, 0, 0, 0);
      if |p.rows| == 0 {
        return false, report;
      }
      if o.op == CompareOnly {
        return true, report.(processed := p.processed);
      }
      if p.failed > 0 {
        return false, report;
      }
      ok := db.Begin(faults.begin);
      if !ok {
        return;
      }
      var now;
      report, now := ApplyRows(db.working, p.rows, o, faults.statement);
      db.Write(now);
      if report.failed > 0 {
        db.Rollback();
        return false, report;
      }
      ok := db.Commit(faults.commit);
      if !ok {
        db.Rollback();
      }
    }
  }
}
