/**
 importFile of the part relationship importer: every line of the file is classified, known relations are
 updated, new ones inserted, and what the file no longer mentions becomes inactive.
 */
module PartRelationships {
  import opened Wrappers
  import opened Sql
  import opened Counting

  datatype Kind = Alternate | Mold | Print | Pattern | Subpart | Related

  /** The UNIQUE key of a row; `code` is the provider's own letter for the type. */
  datatype Relation = Relation(parent: int, child: int, code: Text, source: Text)

  datatype State = State(kind: Option<Kind>, active: bool)

  type Table = map<Relation, State>

  /** A line of the file: not well formed, or its three fields, trimmed and the code in upper case. */
  datatype Line = Malformed | Fields(code: Text, child: Text, parent: Text)

  function KindOf(code: Text): Option<Kind> {
    if code == Text("A") then Some(Alternate)
    else if code == Text("M") then Some(Mold)
    else if code == Text("P") then Some(Print)
    else if code == Text("T") then Some(Pattern)
    else if code == Text("B") then Some(Subpart)
    else if code == Text("R") then Some(Related)
    else None
  }

  // ----- What becomes of a line

  datatype Verdict = Invalid | MissingParent | MissingChild | SelfReference | Relates(relation: Relation)

  function Judge(line: Line, parts: map<Text, int>): Verdict {
    if line.Malformed? || line.code == EMPTY || line.child == EMPTY || line.parent == EMPTY
       || KindOf(line.code).None? then
      Invalid
    else if line.parent !in parts then MissingParent
    else if line.child !in parts then MissingChild
    else if parts[line.parent] == parts[line.child] then SelfReference
    else Relates(Relation(parts[line.parent], parts[line.child], line.code, PROVIDER))
  }

  /** The row is already as the file wants it. */
  predicate IsCurrent(state: State, code: Text) {
    state.active && state.kind == KindOf(code)
  }

  datatype Counters = Counters(
    read: nat, inserted: nat, updated: nat, same: nat, invalid: nat, missingParent: nat, missingChild: nat, selves: nat)

  const ZERO := Counters(0, 0, 0, 0, 0, 0, 0, 0)

  /** `table` is the table at the beginning of the import, which is what lines are compared with. */
  function Counted(c: Counters, v: Verdict, table: Table): Counters {
    var d := c.(read := c.read + 1);
    match v
    case Invalid => d.(invalid := d.invalid + 1)
    case MissingParent => d.(missingParent := d.missingParent + 1)
    case MissingChild => d.(missingChild := d.missingChild + 1)
    case SelfReference => d.(selves := d.selves + 1)
    case Relates(r) =>
      if r !in table then d.(inserted := d.inserted + 1)
      else if IsCurrent(table[r], r.code) then d.(same := d.same + 1)
      else d.(updated := d.updated + 1)
  }

  function Tally(lines: seq<Line>, parts: map<Text, int>, table: Table): Counters {
    if lines == [] then ZERO
    else Counted(Tally(lines[..|lines| - 1], parts, table), Judge(lines[|lines| - 1], parts), table)
  }

  /** The relations the file describes. */
  ghost function Described(lines: seq<Line>, parts: map<Text, int>): set<Relation> {
    set i | 0 <= i < |lines| && Judge(lines[i], parts).Relates? :: Judge(lines[i], parts).relation
  }

  ghost predicate Stored(table: Table) {
    forall r | r in table :: r.parent != r.child
  }

  // ----- The table the import aims at

  function Wanted(r: Relation): State {
    State(KindOf(r.code), true)
  }

  /** Described relations are there and active; Rebrickable's others are inactive; foreign rows are as before. */
  ghost function Synchronized(table: Table, described: set<Relation>): Table {
    map r | r in table.Keys + described ::
      if r in described then Wanted(r)
      else if r.source == PROVIDER then table[r].(active := false)
      else table[r]
  }

  /** The same before the last loop: nothing is inactive yet. */
  ghost function Merged(table: Table, described: set<Relation>): Table {
    map r | r in table.Keys + described :: if r in described then Wanted(r) else table[r]
  }

  /** A new relation listed twice would be inserted twice. */
  ghost predicate NoNewTwice(lines: seq<Line>, parts: map<Text, int>, table: Table) {
    forall i, j | 0 <= i < j < |lines|
                  && Judge(lines[i], parts).Relates? && Judge(lines[i], parts) == Judge(lines[j], parts) ::
      Judge(lines[i], parts).relation in table
  }

  predicate Acceptable(v: Verdict, complete: bool) {
    complete ==> v.SelfReference? || v.Relates?
  }

  ghost predicate AllAcceptable(lines: seq<Line>, parts: map<Text, int>, complete: bool) {
    forall i | 0 <= i < |lines| :: Acceptable(Judge(lines[i], parts), complete)
  }

  // ----- The read loop

  /** The table once the relations of `described` are in it. */
  ghost predicate TableSo(table: Table, now: Table, described: set<Relation>, inserted: nat, seen: set<Relation>) {
    now == Merged(table, described) && |now| == |table| + inserted && seen == described * table.Keys
  }

  /** The first `n` lines were let through, and are counted. */
  ghost predicate LinesSo(table: Table, lines: seq<Line>, parts: map<Text, int>, complete: bool, n: nat, c: Counters)
    requires n <= |lines|
  {
    && c == Tally(lines[..n], parts, table)
    && NoNewTwice(lines[..n], parts, table) && AllAcceptable(lines[..n], parts, complete)
  }

  /** After the first `n` lines. */
  ghost predicate Progress(
    table: Table, now: Table, lines: seq<Line>, parts: map<Text, int>, complete: bool, n: nat, c: Counters,
    seen: set<Relation>)
  {
    && n <= |lines| && TableSo(table, now, Described(lines[..n], parts), c.inserted, seen)
    && LinesSo(table, lines, parts, complete, n, c)
  }

  lemma Starts(table: Table, lines: seq<Line>, parts: map<Text, int>, complete: bool)
    ensures Progress(table, table, lines, parts, complete, 0, ZERO, {})
  {
    assert Described(lines[..0], parts) == {};
    assert Merged(table, {}) == table;
  }

  lemma DescribedStep(lines: seq<Line>, parts: map<Text, int>, n: nat)
    requires n < |lines|
    ensures var v := Judge(lines[n], parts);
      Described(lines[..n + 1], parts) == Described(lines[..n], parts) + if v.Relates? then {v.relation} else {}
  {
    var v, before := Judge(lines[n], parts), Described(lines[..n], parts);
    forall r ensures r in Described(lines[..n + 1], parts) <==> r in before || (v.Relates? && r == v.relation) {
      if r in before {
        var i :| 0 <= i < n && Judge(lines[..n][i], parts).Relates? && Judge(lines[..n][i], parts).relation == r;
        assert lines[..n + 1][i] == lines[..n][i];
      }
      if v.Relates? && r == v.relation {
        assert lines[..n + 1][n] == lines[n];
      }
      if r in Described(lines[..n + 1], parts) {
        var i :| 0 <= i < n + 1 && Judge(lines[..n + 1][i], parts).Relates?
                 && Judge(lines[..n + 1][i], parts).relation == r;
        assert i < n ==> lines[..n][i] == lines[..n + 1][i];
      }
    }
  }

  lemma TallyStep(lines: seq<Line>, parts: map<Text, int>, table: Table, n: nat)
    requires n < |lines|
    ensures Tally(lines[..n + 1], parts, table)
      == Counted(Tally(lines[..n], parts, table), Judge(lines[n], parts), table)
  {
    assert lines[..n + 1][..n] == lines[..n];
  }

  /** The next line keeps a new relation from being inserted twice exactly when it does not repeat one. */
  lemma TwiceStep(lines: seq<Line>, parts: map<Text, int>, table: Table, n: nat)
    requires n < |lines| && NoNewTwice(lines[..n], parts, table)
    ensures var v := Judge(lines[n], parts);
      var repeats := v.Relates? && v.relation !in table && v.relation in Described(lines[..n], parts);
      NoNewTwice(lines[..n + 1], parts, table) <==> !repeats
  {
    var v, before, after := Judge(lines[n], parts), lines[..n], lines[..n + 1];
    if v.Relates? && v.relation !in table && v.relation in Described(before, parts) {
      var i :| 0 <= i < n && Judge(before[i], parts).Relates? && Judge(before[i], parts).relation == v.relation;
      assert Judge(after[i], parts) == Judge(after[n], parts);
    } else {
      forall i, j | 0 <= i < j < n + 1
                    && Judge(after[i], parts).Relates? && Judge(after[i], parts) == Judge(after[j], parts)
        ensures Judge(after[i], parts).relation in table
      {
        assert after[i] == before[i];
        if j < n {
          assert after[j] == before[j];
        } else {
          assert Judge(before[i], parts).relation in Described(before, parts);
        }
      }
    }
  }

  lemma AcceptableStep(lines: seq<Line>, parts: map<Text, int>, complete: bool, n: nat)
    requires n < |lines| && AllAcceptable(lines[..n], parts, complete)
    ensures AllAcceptable(lines[..n + 1], parts, complete) <==> Acceptable(Judge(lines[n], parts), complete)
  {
    if AllAcceptable(lines[..n + 1], parts, complete) {
      assert lines[..n + 1][n] == lines[n];
    }
    if Acceptable(Judge(lines[n], parts), complete) {
      var longer := lines[..n + 1];
      forall i | 0 <= i < |longer| ensures Acceptable(Judge(longer[i], parts), complete) {
        assert i < n ==> longer[i] == lines[..n][i];
      }
    }
  }

  lemma MergeOne(table: Table, described: set<Relation>, r: Relation)
    ensures Merged(table, described)[r := Wanted(r)] == Merged(table, described + {r})
    ensures r in table && IsCurrent(table[r], r.code) ==> Merged(table, described + {r}) == Merged(table, described)
  {
  }

  /** The table after one more line, in terms of the relations described so far. */
  lemma MergedStep(table: Table, described: set<Relation>, now: Table, r: Relation)
    requires now == Merged(table, described)
    requires r !in table ==> r !in described
    ensures var next := if r in table && IsCurrent(table[r], r.code) then now else now[r := Wanted(r)];
      next == Merged(table, described + {r}) && |next| == |now| + if r in table then 0 else 1
  {
    MergeOne(table, described, r);
    AddKey(now, r, Wanted(r));
    SizeOfKeys(now);
    SizeOfKeys(now[r := Wanted(r)]);
    if r in table {
      assert now.Keys + {r} == now.Keys;
    } else {
      AddNew(now.Keys, r);
    }
  }

  /** The line leads to an INSERT or an UPDATE. */
  predicate Writes(table: Table, v: Verdict) {
    v.Relates? && (v.relation in table ==> !IsCurrent(table[v.relation], v.relation.code))
  }

  /** What a line that is let through does to the table. */
  function Made(table: Table, now: Table, v: Verdict): Table {
    if Writes(table, v) then now[v.relation := Wanted(v.relation)]
    else now
  }

  function Noted(table: Table, seen: set<Relation>, v: Verdict): set<Relation> {
    if v.Relates? && v.relation in table then seen + {v.relation} else seen
  }

  lemma CountedInserted(c: Counters, v: Verdict, table: Table)
    ensures Counted(c, v, table).inserted == c.inserted + if v.Relates? && v.relation !in table then 1 else 0
  {
  }

  lemma TableStep(
    table: Table, now: Table, described: set<Relation>, c: Counters, seen: set<Relation>, v: Verdict)
    requires TableSo(table, now, described, c.inserted, seen)
    requires v.Relates? && v.relation !in table ==> v.relation !in now
    ensures TableSo(table, Made(table, now, v), described + if v.Relates? then {v.relation} else {},
                    Counted(c, v, table).inserted, Noted(table, seen, v))
  {
    CountedInserted(c, v, table);
    if v.Relates? {
      MergedStep(table, described, now, v.relation);
    } else {
      assert described + {} == described;
    }
  }

  lemma LinesStep(table: Table, lines: seq<Line>, parts: map<Text, int>, complete: bool, n: nat, c: Counters)
    requires n < |lines| && LinesSo(table, lines, parts, complete, n, c)
    requires var v := Judge(lines[n], parts);
      Acceptable(v, complete) && (v.Relates? && v.relation !in table ==> v.relation !in Described(lines[..n], parts))
    ensures LinesSo(table, lines, parts, complete, n + 1, Counted(c, Judge(lines[n], parts), table))
  {
    TallyStep(lines, parts, table, n);
    TwiceStep(lines, parts, table, n);
    AcceptableStep(lines, parts, complete, n);
  }

  /** One line that is let through. */
  lemma Steps(
    table: Table, now: Table, lines: seq<Line>, parts: map<Text, int>, complete: bool, n: nat, c: Counters,
    seen: set<Relation>, v: Verdict)
    requires Progress(table, now, lines, parts, complete, n, c, seen) && n < |lines|
    requires v == Judge(lines[n], parts) && Acceptable(v, complete)
    requires v.Relates? && v.relation !in table ==> v.relation !in now
    ensures Progress(
      table, Made(table, now, v), lines, parts, complete, n + 1, Counted(c, v, table), Noted(table, seen, v))
  {
    var described := Described(lines[..n], parts);
    assert now.Keys == table.Keys + described;
    DescribedStep(lines, parts, n);
    TableStep(table, now, described, c, seen, v);
    LinesStep(table, lines, parts, complete, n, c);
  }

  lemma RepeatStops(lines: seq<Line>, parts: map<Text, int>, table: Table, n: nat)
    requires n < |lines| && NoNewTwice(lines[..n], parts, table)
    requires var v := Judge(lines[n], parts);
      v.Relates? && v.relation !in table && v.relation in Described(lines[..n], parts)
    ensures !NoNewTwice(lines, parts, table)
  {
    var before, r := lines[..n], Judge(lines[n], parts).relation;
    var i :| 0 <= i < n && Judge(before[i], parts).Relates? && Judge(before[i], parts).relation == r;
    assert lines[i] == before[i];
    assert Judge(lines[i], parts) == Judge(lines[n], parts);
  }

  /** A line that ends the import: unacceptable, or a new relation for the second time. */
  lemma StopsHere(
    table: Table, now: Table, lines: seq<Line>, parts: map<Text, int>, complete: bool, n: nat, c: Counters,
    seen: set<Relation>, v: Verdict)
    requires Progress(table, now, lines, parts, complete, n, c, seen) && n < |lines|
    requires v == Judge(lines[n], parts)
    requires !Acceptable(v, complete) || (v.Relates? && v.relation !in table && v.relation in now)
    ensures !(NoNewTwice(lines, parts, table) && AllAcceptable(lines, parts, complete))
  {
    if Acceptable(v, complete) {
      assert now.Keys == table.Keys + Described(lines[..n], parts);
      RepeatStops(lines, parts, table, n);
    }
  }

  /** What the read loop keeps in its variables. */
  datatype Reading = Reading(now: Table, c: Counters, seen: set<Relation>)

  /** The lines counted are dealt with and nobody asked to stop. */
  ghost predicate Going(
    table: Table, lines: seq<Line>, parts: map<Text, int>, complete: bool, n: nat, g: Reading, faults: Faults)
    requires n <= |lines|
  {
    Progress(table, g.now, lines, parts, complete, n, g.c, g.seen) && faults.NeverStops(256, n)
  }

  /** One pass through the read loop. */
  method NextLine(
    table: Table, lines: seq<Line>, parts: map<Text, int>, complete: bool, n: nat, g: Reading, faults: Faults)
    returns (more: bool, g': Reading)
    requires n < |lines| && Going(table, lines, parts, complete, n, g, faults)
    ensures more ==> Going(table, lines, parts, complete, n + 1, g', faults)
    ensures faults.Quiet() && !more ==> !(NoNewTwice(lines, parts, table) && AllAcceptable(lines, parts, complete))
  {
    var v := Judge(lines[n], parts);
    if faults.StopsAt(256, n + 1) {
      return false, g;
    }
    if !Acceptable(v, complete) || (v.Relates? && v.relation !in table && v.relation in g.now) {
      StopsHere(table, g.now, lines, parts, complete, n, g.c, g.seen, v);
      return false, g;
    }
    if Writes(table, v) && faults.statement(n) {
      return false, g;
    }
    Steps(table, g.now, lines, parts, complete, n, g.c, g.seen, v);
    return true, Reading(Made(table, g.now, v), Counted(g.c, v, table), Noted(table, g.seen, v));
  }

  lemma WholeFilePasses(
    table: Table, lines: seq<Line>, parts: map<Text, int>, complete: bool, g: Reading, faults: Faults)
    requires Going(table, lines, parts, complete, |lines|, g, faults)
    ensures NoNewTwice(lines, parts, table) && AllAcceptable(lines, parts, complete)
  {
    assert lines[..|lines|] == lines;
  }

  /** The read loop. */
  method ReadLines(
    table: Table, lines: seq<Line>, parts: map<Text, int>, complete: bool, faults: Faults)
    returns (ok: bool, now: Table, c: Counters, seen: set<Relation>)
    requires Stored(table)
    ensures ok ==> Progress(table, now, lines, parts, complete, |lines|, c, seen) && faults.NeverStops(256, |lines|)
    ensures faults.Quiet() ==> (ok <==> NoNewTwice(lines, parts, table) && AllAcceptable(lines, parts, complete))
  {
    var g := Reading(table, ZERO, {});
    Starts(table, lines, parts, complete);
    var n := 0;
    while n < |lines|
      invariant 0 <= n <= |lines| && Going(table, lines, parts, complete, n, g, faults)
    {
      ok, g := NextLine(table, lines, parts, complete, n, g, faults);
      if !ok {
        return false, g.now, g.c, g.seen;
      }
      n := n + 1;
    }
    WholeFilePasses(table, lines, parts, complete, g, faults);
    return true, g.now, g.c, g.seen;
  }

  // ----- The deactivation loop

  /** Rebrickable's active rows the file does not mention. */
  ghost function Obsolete(table: Table, described: set<Relation>): set<Relation> {
    set r | r in table && r.source == PROVIDER && table[r].active && r !in described
  }

  /** The merged table with some of Rebrickable's rows looked at. */
  ghost function Swept(table: Table, described: set<Relation>, done: set<Relation>): Table {
    map r | r in table.Keys + described ::
      if r in described then Wanted(r) else if r in done then table[r].(active := false) else table[r]
  }

  lemma SweepOne(table: Table, described: set<Relation>, done: set<Relation>, r: Relation)
    requires r in table && r.source == PROVIDER && r !in done
    ensures var now := Swept(table, described, done);
      Swept(table, described, done + {r})
        == if table[r].active && r !in described then now[r := now[r].(active := false)] else now
    ensures |Obsolete(table, described) * (done + {r})|
      == |Obsolete(table, described) * done| + if table[r].active && r !in described then 1 else 0
  {
    var o := Obsolete(table, described);
    if table[r].active && r !in described {
      assert o * (done + {r}) == o * done + {r};
    } else {
      assert o * (done + {r}) == o * done;
    }
  }

  /** Rebrickable's rows as they were before the import: `existing` in the program. */
  function Existing(table: Table): set<Relation> {
    set r | r in table && r.source == PROVIDER
  }

  lemma SweepDone(table: Table, described: set<Relation>)
    requires forall r | r in described :: r.source == PROVIDER
    ensures Swept(table, described, {}) == Merged(table, described)
    ensures Swept(table, described, Existing(table)) == Synchronized(table, described)
    ensures Obsolete(table, described) * Existing(table) == Obsolete(table, described)
  {
  }

  method Deactivate(
    table: Table, merged: Table, ghost described: set<Relation>, seen: set<Relation>, fault: nat -> bool)
    returns (ok: bool, now: Table, deactivated: nat)
    requires merged == Merged(table, described) && seen == described * table.Keys
    requires forall r | r in described :: r.source == PROVIDER
    ensures ok ==> now == Synchronized(table, described) && deactivated == |Obsolete(table, described)|
    ensures (forall k: nat :: !fault(k)) ==> ok
  {
    now, deactivated := merged, 0;
    var existing := Existing(table);
    var pending, at: nat := existing, 0;
    SweepDone(table, described);
    NothingTaken(existing);
    assert Obsolete(table, described) * {} == {};
    while pending != {}
      invariant pending <= existing
      invariant now == Swept(table, described, existing - pending)
      invariant deactivated == |Obsolete(table, described) * (existing - pending)|
      decreases pending
    {
      var r :| r in pending;
      TakeOne(existing, pending, r);
      SweepOne(table, described, existing - pending, r);
      if table[r].active && r !in seen {
        if fault(at) {
          return false, now, deactivated;
        }
        now, deactivated := now[r := now[r].(active := false)], deactivated + 1;
      }
      pending, at := pending - {r}, at + 1;
    }
    ok := true;
  }

  // ----- importFile

  datatype Report = Report(counters: Counters, deactivated: nat)

  lemma DescribedIsRebrickable(lines: seq<Line>, parts: map<Text, int>)
    ensures forall r | r in Described(lines, parts) :: r.source == PROVIDER && r.parent != r.child
  {
  }

  /** What a successful import leaves, and what it reports. */
  ghost predicate Imported(table: Table, now: Table, lines: seq<Line>, parts: map<Text, int>, report: Report) {
    var described := Described(lines, parts);
    && now == Synchronized(table, described) && report.counters == Tally(lines, parts, table)
    && report.deactivated == |Obsolete(table, described)| && |now| == |table| + report.counters.inserted
  }

  method ImportLines(table: Table, lines: seq<Line>, parts: map<Text, int>, complete: bool, faults: Faults)
    returns (ok: bool, now: Table, report: Report)
    requires Stored(table)
    ensures ok ==> Imported(table, now, lines, parts, report) && faults.NeverStops(256, |lines|)
    ensures faults.Quiet() ==> (ok <==> NoNewTwice(lines, parts, table) && AllAcceptable(lines, parts, complete))
  {
    var merged, c, seen, deactivated;
    ok, merged, c, seen := ReadLines(table, lines, parts, complete, faults);
    now, report := merged, Report(c, 0);
    if !ok {
      return;
    }
    assert lines[..|lines|] == lines;
    ghost var described := Described(lines, parts);
    DescribedIsRebrickable(lines, parts);
    ok, now, deactivated := Deactivate(table, merged, described, seen, (k: nat) => faults.statement(|lines| + k));
    report := Report(c, deactivated);
    if ok {
      assert now.Keys == merged.Keys;
      SizeOfKeys(now);
      SizeOfKeys(merged);
    }
  }

  class Importer {
    const db: Connection<Table>

    constructor (db: Connection<Table>)
      ensures this.db == db
    {
      this.db := db;
    }

    /** importFile, on a readable file with the three columns and a catalog of parts. */
    method ImportFile(lines: seq<Line>, parts: map<Text, int>, complete: bool, faults: Faults)
      returns (ok: bool, report: Report)
      requires db.Idle() && Stored(db.committed)
      modifies db
      ensures db.Idle() && Stored(db.committed)
      ensures !ok ==> db.committed == old(db.committed)
      ensures ok ==> faults.NeverStops(256, |lines|) && !faults.begin && !faults.commit
      ensures ok ==> |parts| > 0 && Imported(old(db.committed), db.committed, lines, parts, report)
      ensures faults.Quiet() ==>
        (ok <==> |parts| > 0 && NoNewTwice(lines, parts, old(db.committed)) && AllAcceptable(lines, parts, complete))
    {
      report := Report(ZERO, 0);
      if |parts| == 0 {
        return false, report;
      }
      var table := db.committed;
      ok := db.Begin(faults.begin);
      if !ok {
        return;
      }
      var now;
      ok, now, report := ImportLines(table, lines, parts, complete, faults);
      db.Write(now);
      if ok {
        ok := db.Commit(faults.commit);
      }
      if !ok {
        db.Rollback();
      } else {
        DescribedIsRebrickable(lines, parts);
      }
    }
  }

  // ----- What it means

  /** The active rows of the provider are exactly the relations of the file. */
  lemma ActiveAreTheFile(table: Table, lines: seq<Line>, parts: map<Text, int>, r: Relation)
    ensures var now := Synchronized(table, Described(lines, parts));
      r in now && now[r].active && r.source == PROVIDER <==> r in Described(lines, parts)
    ensures var now := Synchronized(table, Described(lines, parts));
      r in table ==> r in now && (r.source != PROVIDER ==> now[r] == table[r])
  {
    DescribedIsRebrickable(lines, parts);
  }

  /** Every line read is counted once. */
  lemma {:induction false} CountersAddUp(lines: seq<Line>, parts: map<Text, int>, table: Table)
    ensures var c := Tally(lines, parts, table);
      && c.read == |lines|
      && c.read == c.inserted + c.updated + c.same + c.invalid + c.missingParent + c.missingChild + c.selves
  {
    if lines != [] {
      CountersAddUp(lines[..|lines| - 1], parts, table);
    }
  }

  lemma {:induction false} NothingNew(lines: seq<Line>, parts: map<Text, int>, table: Table)
    requires forall i | 0 <= i < |lines| && Judge(lines[i], parts).Relates? ::
      var r := Judge(lines[i], parts).relation; r in table && table[r] == Wanted(r)
    ensures Tally(lines, parts, table).inserted == 0 && Tally(lines, parts, table).updated == 0
  {
    if lines != [] {
      NothingNew(lines[..|lines| - 1], parts, table);
    }
  }

  /**
   The same file once more: nothing is inserted, updated or deactivated, and the table stays as it is. Once
   its relations are stored, a file may repeat them.
   */
  lemma SameFileChangesNothing(table: Table, lines: seq<Line>, parts: map<Text, int>)
    ensures var now := Synchronized(table, Described(lines, parts));
      && NoNewTwice(lines, parts, now)
      && Synchronized(now, Described(lines, parts)) == now
      && Tally(lines, parts, now).inserted == 0 && Tally(lines, parts, now).updated == 0
      && Obsolete(now, Described(lines, parts)) == {}
  {
    var described := Described(lines, parts);
    var now := Synchronized(table, described);
    forall i | 0 <= i < |lines| && Judge(lines[i], parts).Relates?
      ensures var r := Judge(lines[i], parts).relation; r in now && now[r] == Wanted(r)
    {
      assert Judge(lines[i], parts).relation in described;
    }
    NothingNew(lines, parts, now);
  }

  /** Files that describe the same relations leave the same table, whatever their order and repetitions. */
  lemma OnlyTheRelationsMatter(table: Table, lines: seq<Line>, others: seq<Line>, parts: map<Text, int>)
    requires forall i | 0 <= i < |lines| :: lines[i] in others
    requires forall i | 0 <= i < |others| :: others[i] in lines
    ensures Synchronized(table, Described(lines, parts)) == Synchronized(table, Described(others, parts))
  {
    assert Described(lines, parts) == Described(others, parts);
  }

  // ----- The same over the fields of the lines

  /** The letters of the provider and what they stand for. */
  ghost const LETTERS: map<string, Kind> := map[
    "A" := Alternate, "M" := Mold, "P" := Print, "T" := Pattern, "B" := Subpart, "R" := Related]

  /** The line has its three fields and a known letter. */
  ghost predicate Readable(line: Line) {
    line.Fields? && line.child != EMPTY && line.parent != EMPTY && line.code.characters in LETTERS
  }

  /** The line says that `child` is a part of `parent` in the way of its letter. */
  ghost predicate Tells(line: Line, parts: map<Text, int>, r: Relation) {
    && Readable(line) && line.parent in parts && line.child in parts
    && parts[line.parent] == r.parent && parts[line.child] == r.child && r.parent != r.child
    && r.code == line.code && r.source == PROVIDER
  }

  /** The row stands with the kind of its letter. */
  ghost predicate StandsFor(table: Table, r: Relation) {
    r in table && table[r].active && r.code.characters in LETTERS && table[r].kind == Some(LETTERS[r.code.characters])
  }

  lemma LettersByFields(code: Text)
    ensures KindOf(code).Some? <==> code.characters in LETTERS
    ensures code.characters in LETTERS ==> KindOf(code) == Some(LETTERS[code.characters])
    ensures EMPTY.characters !in LETTERS
  {
    assert code == Text(code.characters);
    assert |EMPTY.characters| == 0 && |"A"| == 1;
  }

  lemma JudgeByFields(line: Line, parts: map<Text, int>)
    ensures var v := Judge(line, parts);
      && (v.Invalid? <==> !Readable(line))
      && (v.MissingParent? <==> Readable(line) && line.parent !in parts)
      && (v.MissingChild? <==> Readable(line) && line.parent in parts && line.child !in parts)
      && (v.SelfReference? <==>
            Readable(line) && line.parent in parts && line.child in parts && parts[line.parent] == parts[line.child])
    ensures forall r :: Judge(line, parts) == Relates(r) <==> Tells(line, parts, r)
  {
    if line.Fields? {
      LettersByFields(line.code);
    }
  }

  /**
   The table after a successful import, row by row: what some line tells stands, active and with the kind of its
   letter; other rows of the provider are kept and inactive; rows of others are as they were.
   */
  lemma RowByRow(table: Table, lines: seq<Line>, parts: map<Text, int>, r: Relation)
    ensures var now := Synchronized(table, Described(lines, parts));
      if exists i :: 0 <= i < |lines| && Tells(lines[i], parts, r) then
        StandsFor(now, r)
      else
        && (r in now <==> r in table)
        && (r in table ==> now[r] == if r.source == PROVIDER then State(table[r].kind, false) else table[r])
  {
    forall i | 0 <= i < |lines| ensures Judge(lines[i], parts) == Relates(r) <==> Tells(lines[i], parts, r) {
      JudgeByFields(lines[i], parts);
    }
    if r in Described(lines, parts) {
      var i :| 0 <= i < |lines| && Judge(lines[i], parts).Relates? && Judge(lines[i], parts).relation == r;
      assert Tells(lines[i], parts, r);
      LettersByFields(r.code);
    }
  }

  /** Which files are taken: nothing new is told twice, and a complete file has only readable lines of known parts. */
  lemma AcceptedByFields(table: Table, lines: seq<Line>, parts: map<Text, int>, complete: bool)
    ensures NoNewTwice(lines, parts, table) <==>
      forall i, j, r | 0 <= i < j < |lines| && Tells(lines[i], parts, r) && Tells(lines[j], parts, r) :: r in table
    ensures AllAcceptable(lines, parts, complete) <==>
      (complete ==> forall i | 0 <= i < |lines| ::
         Readable(lines[i]) && lines[i].parent in parts && lines[i].child in parts)
  {
    forall i | 0 <= i < |lines|
      ensures forall r :: Judge(lines[i], parts) == Relates(r) <==> Tells(lines[i], parts, r)
      ensures Acceptable(Judge(lines[i], parts), complete) <==>
        (complete ==> Readable(lines[i]) && lines[i].parent in parts && lines[i].child in parts)
    {
      JudgeByFields(lines[i], parts);
    }
  }

  /** How many lines a test accepts. */
  ghost function Number(lines: seq<Line>, test: Line -> bool): nat {
    if lines == [] then 0 else Number(lines[..|lines| - 1], test) + if test(lines[|lines| - 1]) then 1 else 0
  }

  /** The line tells a relation that stands already. */
  ghost predicate Repeats(line: Line, parts: map<Text, int>, table: Table) {
    exists r :: Tells(line, parts, r) && StandsFor(table, r)
  }

  /** The line tells a relation that is stored, but inactive or as another kind. */
  ghost predicate Revives(line: Line, parts: map<Text, int>, table: Table) {
    exists r :: Tells(line, parts, r) && r in table && !StandsFor(table, r)
  }

  lemma RepeatsByFields(line: Line, parts: map<Text, int>, table: Table)
    ensures var v := Judge(line, parts);
      && (Repeats(line, parts, table) <==>
            v.Relates? && v.relation in table && IsCurrent(table[v.relation], v.relation.code))
      && (Revives(line, parts, table) <==>
            v.Relates? && v.relation in table && !IsCurrent(table[v.relation], v.relation.code))
  {
    JudgeByFields(line, parts);
    if line.Fields? {
      LettersByFields(line.code);
    }
  }

  /** The counters, line by line of the file. */
  lemma {:induction false} CountersByFields(lines: seq<Line>, parts: map<Text, int>, table: Table)
    ensures var c := Tally(lines, parts, table);
      && c.invalid == Number(lines, (l: Line) => !Readable(l))
      && c.missingParent == Number(lines, (l: Line) => Readable(l) && l.parent !in parts)
      && c.missingChild == Number(lines, (l: Line) => Readable(l) && l.parent in parts && l.child !in parts)
      && c.selves == Number(lines, (l: Line) =>
           Readable(l) && l.parent in parts && l.child in parts && parts[l.parent] == parts[l.child])
      && c.same == Number(lines, (l: Line) => Repeats(l, parts, table))
      && c.updated == Number(lines, (l: Line) => Revives(l, parts, table))
  {
    if lines != [] {
      CountersByFields(lines[..|lines| - 1], parts, table);
      JudgeByFields(lines[|lines| - 1], parts);
      RepeatsByFields(lines[|lines| - 1], parts, table);
    }
  }

  /** The rows that were active and are not any more. */
  lemma DeactivatedByFields(table: Table, lines: seq<Line>, parts: map<Text, int>)
    ensures var now := Synchronized(table, Described(lines, parts));
      Obsolete(table, Described(lines, parts)) == set r | r in table && r in now && table[r].active && !now[r].active
  {
  }
}
