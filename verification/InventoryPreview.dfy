/** previewOwnedParts: what an inventory CSV would do to the selected slot, row by row. */
module InventoryPreview {
  import opened Wrappers
  import opened InventoryStock

  datatype Operation = Append | Replace | Subtract | CompareOnly

  datatype Status =
    | Error
    | NeedsReview
    | NoChange
    | Same
    | NewInventory
    | Appended
    | ReplaceIncrease
    | ReplaceDecrease
    | ReplaceRemove
    | Subtracted
    | AppendToRebrickable
    | SubtractFromRebrickable

  /** A line of the file: a wrong number of columns, or the three fields as far as they could be read. */
  datatype Line = BadColumns | Fields(part: Text, color: Option<int>, quantity: Option<int>)

  /** The catalogs the identifiers are resolved in. */
  datatype Catalog = Catalog(parts: map<Text, int>, colors: map<int, int>)

  /** What an acceptable line asks for. */
  datatype Wanted = Wanted(key: Key, quantity: int)

  datatype Row = Row(
    key: Option<Key>, record: Option<nat>, source: int, current: int, resulting: int, difference: int, status: Status)

  datatype Preview = Preview(rows: seq<Row>, processed: nat, failed: nat, valid: nat, totalSource: int)

  function Resolve(line: Line, catalog: Catalog): (r: Option<Wanted>)
    ensures r.Some? ==> r.value.quantity > 0
  {
    if line.BadColumns? || line.part == EMPTY || line.color.None? || line.quantity.None? || line.quantity.value <= 0
       || line.part !in catalog.parts || line.color.value !in catalog.colors
    then None
    else Some(Wanted(Key(catalog.parts[line.part], catalog.colors[line.color.value]), line.quantity.value))
  }

  const ERROR_ROW := Row(None, None, 0, 0, 0, 0, Error)

  /** The row for a resolved line, given the record that was found for its key. */
  function RowFor(op: Operation, w: Wanted, record: Option<nat>, current: int): Row {
    match op
    case Append =>
      Row(Some(w.key), record, w.quantity, current, current + w.quantity, w.quantity,
          if current == 0 then NewInventory else Appended)
    case Replace =>
      Row(Some(w.key), record, w.quantity, current, w.quantity, w.quantity - current,
          if current == 0 then NewInventory
          else if w.quantity == current then NoChange
          else if w.quantity > current then ReplaceIncrease
          else ReplaceDecrease)
    case Subtract =>
      if current < w.quantity then Row(Some(w.key), record, w.quantity, current, current, 0, NeedsReview)
      else Row(Some(w.key), record, w.quantity, current, current - w.quantity, -w.quantity, Subtracted)
    case CompareOnly =>
      Row(Some(w.key), record, w.quantity, current, current, current - w.quantity,
          if current == w.quantity then Same
          else if current > w.quantity then AppendToRebrickable
          else SubtractFromRebrickable)
  }

  /** The row for stock the file does not mention. */
  function ExtraRow(op: Operation, key: Key, record: nat, current: int): Row {
    if op == CompareOnly then Row(Some(key), Some(record), 0, current, current, current, AppendToRebrickable)
    else Row(Some(key), Some(record), 0, current, 0, -current, ReplaceRemove)
  }

  // ----- What a preview says

  /** The record a row names is one of its key, and the quantity shown is that record's. */
  ghost predicate IsCurrent(records: seq<Record>, slot: Slot, key: Key, record: Option<nat>, current: int) {
    if record.Some? then
      && record.value < |records| && records[record.value].slot == slot && records[record.value].key == key
      && current == records[record.value].quantity
    else
      current == 0 && forall i | 0 <= i < |records| :: !(records[i].slot == slot && records[i].key == key)
  }

  /** Adding: the stock grows by what the line lists. */
  ghost predicate SaysAppend(row: Row) {
    && row.difference == row.source && row.resulting == row.current + row.source
    && (row.status == NewInventory <==> row.current == 0) && (row.status == Appended <==> row.current != 0)
  }

  /** Replacing: the stock becomes what the line lists. */
  ghost predicate SaysReplace(row: Row) {
    && row.resulting == row.source && row.difference == row.source - row.current
    && (row.status == NewInventory <==> row.current == 0)
    && (row.status == NoChange <==> row.current != 0 && row.source == row.current)
    && (row.status == ReplaceIncrease <==> row.current != 0 && row.source > row.current)
    && (row.status == ReplaceDecrease <==> row.current != 0 && row.source < row.current)
  }

  /** Taking away: only what is there, down to nothing; otherwise the row asks for review and changes nothing. */
  ghost predicate SaysSubtract(row: Row) {
    && (row.status == Subtracted <==> row.source <= row.current)
    && (row.status == NeedsReview <==> row.source > row.current)
    && row.resulting - row.current == row.difference
    && row.difference == if row.source <= row.current then -row.source else 0
  }

  /** Comparing: nothing results; the difference is what this side has more. */
  ghost predicate SaysCompare(row: Row) {
    && row.resulting == row.current && row.current == row.source + row.difference
    && (row.status == Same <==> row.current == row.source)
    && (row.status == AppendToRebrickable <==> row.current > row.source)
    && (row.status == SubtractFromRebrickable <==> row.current < row.source)
  }

  ghost predicate Says(op: Operation, row: Row) {
    && (op == Append ==> SaysAppend(row)) && (op == Replace ==> SaysReplace(row))
    && (op == Subtract ==> SaysSubtract(row)) && (op == CompareOnly ==> SaysCompare(row))
  }

  /** The row of a line that asks for `w`, or of one that cannot be used. */
  ghost predicate Shows(records: seq<Record>, slot: Slot, op: Operation, w: Option<Wanted>, row: Row) {
    if w.None? then row == Row(None, None, 0, 0, 0, 0, Error)
    else
      && row.key == Some(w.value.key) && row.source == w.value.quantity
      && IsCurrent(records, slot, w.value.key, row.record, row.current)
      && Says(op, row)
  }

  predicate Fails(row: Row) {
    row.status == Error || row.status == NeedsReview
  }

  /** The resolved lines of a file. */
  function ResolveAll(lines: seq<Line>, catalog: Catalog): (r: seq<Option<Wanted>>)
    ensures |r| == |lines|
  {
    seq(|lines|, i requires 0 <= i < |lines| => Resolve(lines[i], catalog))
  }

  predicate AddsMissing(op: Operation) {
    op == Replace || op == CompareOnly
  }

  /** Some row from `from` up to `to` is about the key. */
  ghost predicate Represented(rows: seq<Row>, to: nat, key: Key) {
    exists i :: 0 <= i < to <= |rows| && rows[i].key == Some(key)
  }

  /** A row that `k` adds to the rows before it: stock of a key none of them is about. */
  ghost predicate Extra(records: seq<Record>, slot: Slot, op: Operation, rows: seq<Row>, k: nat) {
    k < |rows| && rows[k].key.Some? && rows[k].record.Some?
    && IsCurrent(records, slot, rows[k].key.value, rows[k].record, rows[k].current) && rows[k].current > 0
    && rows[k].source == 0
    && (if op == CompareOnly then SaysCompare(rows[k])
        else rows[k].resulting == 0 && rows[k].difference == -rows[k].current && rows[k].status == ReplaceRemove)
    && !Represented(rows, k, rows[k].key.value)
  }

  /** The query for a record finds the same one whenever a file repeats a key. */
  ghost predicate SamePick(wanted: seq<Option<Wanted>>, rows: seq<Row>)
    requires |wanted| <= |rows|
  {
    forall i, j | 0 <= i < |wanted| && 0 <= j < |wanted| && wanted[i].Some? && wanted[j].Some? ::
      wanted[i].value.key == wanted[j].value.key ==> rows[i].record == rows[j].record
  }

  /** What the rows of a preview are: one per line, then, where the operation looks at all stock, the rest of it. */
  ghost predicate Previews(
    records: seq<Record>, slot: Slot, op: Operation, wanted: seq<Option<Wanted>>, rows: seq<Row>)
  {
    && |wanted| <= |rows|
    && (forall i | 0 <= i < |wanted| :: Shows(records, slot, op, wanted[i], rows[i]))
    && SamePick(wanted, rows)
    && (forall k | |wanted| <= k < |rows| :: Extra(records, slot, op, rows, k))
    && (op == Append || op == Subtract ==> |rows| == |wanted|)
    && (op == Replace || op == CompareOnly ==>
          forall i | 0 <= i < |records| && records[i].slot == slot && records[i].quantity > 0 ::
            Represented(rows, |rows|, records[i].key))
  }

  function Failures(rows: seq<Row>): nat {
    if rows == [] then 0 else Failures(rows[..|rows| - 1]) + if Fails(rows[|rows| - 1]) then 1 else 0
  }

  function Asked(wanted: seq<Option<Wanted>>): int {
    if wanted == [] then 0
    else
      var last := wanted[|wanted| - 1];
      Asked(wanted[..|wanted| - 1]) + if last.Some? then last.value.quantity else 0
  }

  /** A line that can be used: three fields, a named part, a positive quantity, and both names known. */
  ghost predicate Usable(line: Line, catalog: Catalog) {
    && line.Fields? && line.part != EMPTY && line.part in catalog.parts
    && line.color.Some? && line.color.value in catalog.colors
    && line.quantity.Some? && line.quantity.value > 0
  }

  /** The key a usable line is about. */
  ghost function KeyOf(line: Line, catalog: Catalog): Key
    requires Usable(line, catalog)
  {
    Key(catalog.parts[line.part], catalog.colors[line.color.value])
  }

  /** Lines that cannot be used, or that ask for more than is there to subtract. */
  ghost predicate Refuses(op: Operation, catalog: Catalog, line: Line, row: Row) {
    !Usable(line, catalog) || (op == Subtract && line.quantity.value > row.current)
  }

  ghost function Refusals(op: Operation, catalog: Catalog, lines: seq<Line>, rows: seq<Row>): nat
    requires |lines| <= |rows|
  {
    if lines == [] then 0
    else
      var n := |lines| - 1;
      Refusals(op, catalog, lines[..n], rows) + if Refuses(op, catalog, lines[n], rows[n]) then 1 else 0
  }

  /** The sum over all lines that can be used. */
  ghost function Listed(lines: seq<Line>, catalog: Catalog): int {
    if lines == [] then 0
    else
      var n := |lines| - 1;
      Listed(lines[..n], catalog) + if Usable(lines[n], catalog) then lines[n].quantity.value else 0
  }

  lemma ResolveByFields(line: Line, catalog: Catalog)
    ensures Resolve(line, catalog).Some? <==> Usable(line, catalog)
    ensures Usable(line, catalog) ==>
      Resolve(line, catalog) == Some(Wanted(KeyOf(line, catalog), line.quantity.value))
  {
  }

  lemma {:induction false} ListedByFields(lines: seq<Line>, catalog: Catalog)
    ensures Asked(ResolveAll(lines, catalog)) == Listed(lines, catalog)
  {
    if lines != [] {
      var n := |lines| - 1;
      ListedByFields(lines[..n], catalog);
      assert ResolveAll(lines, catalog)[..n] == ResolveAll(lines[..n], catalog);
      ResolveByFields(lines[n], catalog);
    }
  }

  lemma {:induction false} FailuresByFields(
    records: seq<Record>, slot: Slot, op: Operation, lines: seq<Line>, catalog: Catalog, rows: seq<Row>, n: nat)
    requires n <= |lines| <= |rows|
    requires forall i | 0 <= i < |lines| :: Shows(records, slot, op, Resolve(lines[i], catalog), rows[i])
    ensures Failures(rows[..n]) == Refusals(op, catalog, lines[..n], rows)
    decreases n
  {
    if n > 0 {
      FailuresByFields(records, slot, op, lines, catalog, rows, n - 1);
      assert rows[..n][..n - 1] == rows[..n - 1] && lines[..n][..n - 1] == lines[..n - 1];
      ResolveByFields(lines[n - 1], catalog);
      assert Shows(records, slot, op, Resolve(lines[n - 1], catalog), rows[n - 1]);
      assert Fails(rows[n - 1]) <==> Refuses(op, catalog, lines[n - 1], rows[n - 1]);
    }
  }

  /** `record` is the one a search from the front meets. */
  ghost predicate IsFirst(records: seq<Record>, slot: Slot, key: Key, record: Option<nat>) {
    && (record.None? ==> forall i | 0 <= i < |records| :: !Matches(records[i], slot, key))
    && (record.Some? ==> record.value < |records| && Matches(records[record.value], slot, key))
    && (record.Some? ==> forall j | 0 <= j < record.value :: !Matches(records[j], slot, key))
  }

  lemma FirstIsOne(records: seq<Record>, slot: Slot, key: Key, a: Option<nat>, b: Option<nat>)
    requires IsFirst(records, slot, key, a) && IsFirst(records, slot, key, b)
    ensures a == b
  {
  }

  /** LIMIT 1: some record of the key, the same one each time. Previews do not say which. */
  method FindAny(records: seq<Record>, slot: Slot, key: Key) returns (record: Option<nat>, current: int)
    ensures IsCurrent(records, slot, key, record, current) && IsFirst(records, slot, key, record)
  {
    var i := 0;
    while i < |records|
      invariant 0 <= i <= |records|
      invariant forall j | 0 <= j < i :: !Matches(records[j], slot, key)
    {
      if Matches(records[i], slot, key) {
        return Some(i), records[i].quantity;
      }
      i := i + 1;
    }
    return None, 0;
  }

  method PreviewLine(records: seq<Record>, slot: Slot, op: Operation, w: Option<Wanted>) returns (row: Row)
    ensures Shows(records, slot, op, w, row)
    ensures w.Some? ==> IsFirst(records, slot, w.value.key, row.record)
  {
    if w.None? {
      return ERROR_ROW;
    }
    var record, current := FindAny(records, slot, w.value.key);
    row := RowFor(op, w.value, record, current);
  }

  lemma AskedStep(lines: seq<Line>, catalog: Catalog, i: nat)
    requires i < |lines|
    ensures var w := Resolve(lines[i], catalog);
      Asked(ResolveAll(lines[..i + 1], catalog))
        == Asked(ResolveAll(lines[..i], catalog)) + if w.Some? then w.value.quantity else 0
  {
    assert ResolveAll(lines[..i + 1], catalog)[..i] == ResolveAll(lines[..i], catalog);
  }

  ghost predicate FirstFor(records: seq<Record>, slot: Slot, w: Option<Wanted>, row: Row) {
    w.Some? ==> IsFirst(records, slot, w.value.key, row.record)
  }

  lemma FirstIsSamePick(records: seq<Record>, slot: Slot, lines: seq<Line>, catalog: Catalog, rows: seq<Row>)
    requires |lines| <= |rows|
    requires forall j | 0 <= j < |lines| :: FirstFor(records, slot, Resolve(lines[j], catalog), rows[j])
    ensures SamePick(ResolveAll(lines, catalog), rows)
  {
    var wanted := ResolveAll(lines, catalog);
    forall i, j | 0 <= i < |wanted| && 0 <= j < |wanted| && wanted[i].Some? && wanted[j].Some?
      ensures wanted[i].value.key == wanted[j].value.key ==> rows[i].record == rows[j].record
    {
      assert FirstFor(records, slot, Resolve(lines[i], catalog), rows[i]);
      assert FirstFor(records, slot, Resolve(lines[j], catalog), rows[j]);
      if wanted[i].value.key == wanted[j].value.key {
        FirstIsOne(records, slot, wanted[i].value.key, rows[i].record, rows[j].record);
      }
    }
  }

  /** The rows of the file itself. */
  method PreviewLines(records: seq<Record>, slot: Slot, op: Operation, lines: seq<Line>, catalog: Catalog)
    returns (rows: seq<Row>, failed: nat, valid: nat, total: int)
    ensures |rows| == |lines|
    ensures forall i | 0 <= i < |lines| :: Shows(records, slot, op, Resolve(lines[i], catalog), rows[i])
    ensures SamePick(ResolveAll(lines, catalog), rows)
    ensures failed == Failures(rows) && valid == |lines| - failed && total == Asked(ResolveAll(lines, catalog))
  {
    rows, failed, valid, total := [], 0, 0, 0;
    var i := 0;
    while i < |lines|
      invariant 0 <= i <= |lines| && |rows| == i
      invariant forall j | 0 <= j < i :: Shows(records, slot, op, Resolve(lines[j], catalog), rows[j])
      invariant forall j | 0 <= j < i :: FirstFor(records, slot, Resolve(lines[j], catalog), rows[j])
      invariant failed == Failures(rows) && valid == i - failed && total == Asked(ResolveAll(lines[..i], catalog))
    {
      var w := Resolve(lines[i], catalog);
      var row := PreviewLine(records, slot, op, w);
      total := total + if w.Some? then w.value.quantity else 0;
      AskedStep(lines, catalog, i);
      assert (rows + [row])[..i] == rows;
      if Fails(row) {
        failed := failed + 1;
      } else {
        valid := valid + 1;
      }
      rows, i := rows + [row], i + 1;
    }
    assert lines[..i] == lines;
    FirstIsSamePick(records, slot, lines, catalog, rows);
  }

  /** The stock of the slot no row is about yet, one row per key. */
  method AddMissing(records: seq<Record>, slot: Slot, op: Operation, lines: seq<Row>)
    returns (rows: seq<Row>)
    ensures |lines| <= |rows| && rows[..|lines|] == lines
    ensures forall k | |lines| <= k < |rows| :: Extra(records, slot, op, rows, k)
    ensures forall i | 0 <= i < |records| && records[i].slot == slot && records[i].quantity > 0 ::
      Represented(rows, |rows|, records[i].key)
  {
    rows := lines;
    var represented := set row | row in lines && row.key.Some? :: row.key.value;
    var i := 0;
    while i < |records|
      invariant 0 <= i <= |records| && |lines| <= |rows| && rows[..|lines|] == lines
      invariant forall key :: key in represented <==> Represented(rows, |rows|, key)
      invariant forall k | |lines| <= k < |rows| :: Extra(records, slot, op, rows, k)
      invariant forall j | 0 <= j < i && records[j].slot == slot && records[j].quantity > 0 ::
        records[j].key in represented
    {
      var r := records[i];
      if r.slot == slot && r.quantity > 0 && r.key !in represented {
        GrowRows(records, slot, op, rows, |lines|, i);
        rows, represented := rows + [ExtraRow(op, r.key, i, r.quantity)], represented + {r.key};
      }
      i := i + 1;
    }
  }

  lemma GrowRows(records: seq<Record>, slot: Slot, op: Operation, rows: seq<Row>, from: nat, i: nat)
    requires i < |records| && records[i].slot == slot && records[i].quantity > 0 && from <= |rows|
    requires !Represented(rows, |rows|, records[i].key)
    requires forall k | from <= k < |rows| :: Extra(records, slot, op, rows, k)
    ensures var more := rows + [ExtraRow(op, records[i].key, i, records[i].quantity)];
      && (forall k | from <= k < |more| :: Extra(records, slot, op, more, k))
      && forall key :: Represented(more, |more|, key) <==> Represented(rows, |rows|, key) || key == records[i].key
  {
    var more := rows + [ExtraRow(op, records[i].key, i, records[i].quantity)];
    forall k, key | 0 <= k <= |rows| ensures Represented(more, k, key) <==> Represented(rows, k, key) {
      if Represented(more, k, key) {
        var j :| 0 <= j < k <= |more| && more[j].key == Some(key);
        assert rows[j].key == Some(key);
      }
      if Represented(rows, k, key) {
        var j :| 0 <= j < k <= |rows| && rows[j].key == Some(key);
        assert more[j].key == Some(key);
      }
    }
    forall k | from <= k < |more| ensures Extra(records, slot, op, more, k) {
      if k < |rows| {
        assert Extra(records, slot, op, rows, k);
      }
    }
    forall key ensures Represented(more, |more|, key) <==> Represented(rows, |rows|, key) || key == records[i].key {
      if Represented(more, |more|, key) {
        var j :| 0 <= j < |more| && more[j].key == Some(key);
        assert j < |rows| ==> rows[j].key == Some(key);
      }
      if Represented(rows, |rows|, key) {
        assert Represented(more, |rows|, key);
      }
      assert more[|rows|].key == Some(records[i].key);
    }
  }

  lemma RowsByFields(
    records: seq<Record>, slot: Slot, op: Operation, lines: seq<Line>, catalog: Catalog, rows: seq<Row>)
    requires |lines| <= |rows|
    requires forall i | 0 <= i < |lines| :: Shows(records, slot, op, Resolve(lines[i], catalog), rows[i])
    ensures forall i | 0 <= i < |lines| :: rows[i].key.Some? <==> Usable(lines[i], catalog)
    ensures forall i | 0 <= i < |lines| && Usable(lines[i], catalog) ::
      && rows[i].key.value.part == catalog.parts[lines[i].part]
      && rows[i].key.value.color == catalog.colors[lines[i].color.value]
      && rows[i].source == lines[i].quantity.value
      && IsCurrent(records, slot, rows[i].key.value, rows[i].record, rows[i].current)
      && Says(op, rows[i])
    ensures forall i | 0 <= i < |lines| && !Usable(lines[i], catalog) :: rows[i].status == Error
  {
    forall i | 0 <= i < |lines|
      ensures Resolve(lines[i], catalog).Some? <==> Usable(lines[i], catalog)
      ensures Usable(lines[i], catalog) ==>
        Resolve(lines[i], catalog) == Some(Wanted(KeyOf(lines[i], catalog), lines[i].quantity.value))
    {
      ResolveByFields(lines[i], catalog);
    }
  }

  /**
   previewOwnedParts on a readable file with the three columns. Line by line the row has a key exactly when the
   line can be used; then it is about the part and colour the line names, lists the line's quantity, shows the
   stock of a record of that key, and says what the operation would make of it.
   */
  method PreviewOwnedParts(records: seq<Record>, slot: Slot, op: Operation, lines: seq<Line>, catalog: Catalog)
    returns (p: Preview)
    ensures Previews(records, slot, op, ResolveAll(lines, catalog), p.rows)
    ensures forall i | 0 <= i < |lines| :: p.rows[i].key.Some? <==> Usable(lines[i], catalog)
    ensures forall i | 0 <= i < |lines| && Usable(lines[i], catalog) ::
      && p.rows[i].key.value.part == catalog.parts[lines[i].part]
      && p.rows[i].key.value.color == catalog.colors[lines[i].color.value]
      && p.rows[i].source == lines[i].quantity.value
      && IsCurrent(records, slot, p.rows[i].key.value, p.rows[i].record, p.rows[i].current)
      && Says(op, p.rows[i])
    ensures forall i | 0 <= i < |lines| && !Usable(lines[i], catalog) :: p.rows[i].status == Error
    ensures p.processed == |lines| && p.failed == Refusals(op, catalog, lines, p.rows) == Failures(p.rows[..|lines|])
    ensures p.valid == |p.rows| - p.failed && p.totalSource == Listed(lines, catalog)
  {
    var rows, failed, valid, total := PreviewLines(records, slot, op, lines, catalog);
    var all := rows;
    if AddsMissing(op) {
      all := AddMissing(records, slot, op, rows);
    }
    assert forall i | 0 <= i < |lines| :: all[i] == all[..|lines|][i] == rows[i];
    assert all[..|lines|] == rows && lines[..|lines|] == lines;
    p := Preview(all, |lines|, failed, valid + |all| - |rows|, total);
    FailuresByFields(records, slot, op, lines, catalog, all, |lines|);
    ListedByFields(lines, catalog);
    RowsByFields(records, slot, op, lines, catalog, all);
  }
}
