/**
 DatabaseSchema::initialize: a ladder of migrations in one transaction, interrupted where SQLite must
 rebuild a referenced table outside it. The schema is what has been applied to it, in order, together with
 the recorded version; every statement can fail.
 */
module SchemaLadder {
  import opened Wrappers
  import opened Sql

  const CURRENT := 35

  /** Statement numbers: four for each rung, then the checks after a rebuild, then the rest of initialize. */
  const AFTER_REBUILD := 200
  const READING := 300
  const SEEDING := 301

  /**
   `version` is the row of schema_version, None when the table is empty. `steps` are the migrations applied,
   each named by the version it leads to. `partial` says that some statements of a migration ran and others
   did not. `cancelled` says that the CHECK of the build table knows the status 'Cancelled'.
   */
  datatype Schema = Schema(version: Option<int>, steps: seq<int>, partial: bool, cancelled: bool)

  ghost function UpTo(v: nat): seq<int> {
    seq(v, i => i + 1)
  }

  /** The schema is the state at version `v`, with nothing half done. */
  ghost predicate At(s: Schema, v: nat) {
    && !s.partial
    && s.steps == UpTo(v)
    && (if v == 0 then s.version == None else s.version == Some(v))
  }

  ghost predicate Whole(s: Schema) {
    exists v: nat :: At(s, v)
  }

  lemma UpToNext(v: nat)
    ensures UpTo(v) + [v + 1] == UpTo(v + 1)
  {
  }

  function RecordedVersion(s: Schema): int {
    if s.version.Some? then s.version.value else 0
  }

  /** No statement of an ordinary rung fails: the migration, and the two that record the version. */
  ghost predicate RungOk(faults: Faults, from: nat) {
    !faults.statement(4 * from) && !faults.statement(4 * from + 1) && !faults.statement(4 * from + 2)
  }

  /** Nothing of a rebuild fails: what comes before it, its own transaction, and the checks after its commit. */
  ghost predicate RebuildOk(faults: Faults, from: nat) {
    && !faults.begin && !faults.commit
    && RungOk(faults, from) && !faults.statement(4 * from + 3) && !faults.statement(AFTER_REBUILD + from)
  }

  /** Neither statement fails that records version 11 where there is nothing to rebuild. */
  ghost predicate MarkOk(faults: Faults) {
    !faults.statement(40) && !faults.statement(41)
  }

  /** The step from version `from` to the next goes through; `cancelled` matters to the step from 10 only. */
  ghost predicate StepOk(faults: Faults, from: nat, cancelled: bool) {
    if from == 10 && cancelled then MarkOk(faults)
    else if from == 10 || from == 15 || from == 26 then RebuildOk(faults, from)
    else RungOk(faults, from)
  }

  /** Every step from `from` to the current version goes through. */
  ghost predicate StepsOk(faults: Faults, from: nat, cancelled: bool) {
    forall i: nat | from <= i < CURRENT :: StepOk(faults, i, cancelled)
  }

  lemma OrdinarySteps(faults: Faults, cancelled: bool)
    ensures forall i: nat {:trigger RungOk(faults, i)} {:trigger StepOk(faults, i, cancelled)} ::
      i != 10 && i != 15 && i != 26 ==> (StepOk(faults, i, cancelled) <==> RungOk(faults, i))
    ensures StepOk(faults, 10, cancelled) <==> if cancelled then MarkOk(faults) else RebuildOk(faults, 10)
    ensures StepOk(faults, 15, cancelled) <==> RebuildOk(faults, 15)
    ensures StepOk(faults, 26, cancelled) <==> RebuildOk(faults, 26)
  {
  }

  lemma LaterSteps(faults: Faults, cancelled: bool)
    ensures forall i: nat, other | i != 10 :: StepOk(faults, i, other) <==> StepOk(faults, i, cancelled)
  {
  }

  /** Once the first step is taken, or from the same start, the remaining steps are those of the whole way. */
  lemma SameSteps(faults: Faults, v: nat, version: nat, cancelled: bool, now: bool)
    requires (version == v && now == cancelled) || (version == v + 1 && v >= 10 && StepOk(faults, v, cancelled))
    requires StepsOk(faults, version, now)
    ensures StepsOk(faults, v, cancelled)
  {
    forall i: nat | v <= i < CURRENT ensures StepOk(faults, i, cancelled) {
      if version <= i {
        assert StepOk(faults, i, now);
      }
    }
  }

  /** Inside the ladder's own transaction, `version` reached but not committed. */
  ghost predicate Climbing(db: Connection<Schema>, start: Schema, version: nat)
    reads db
  {
    db.Valid() && db.inTransaction && db.committed == start && At(db.working, version)
  }

  /** DELETE then INSERT: two statements, each committing itself outside a transaction. */
  method SetSchemaVersion(db: Connection<Schema>, version: int, faults: Faults, at: nat) returns (ok: bool)
    requires db.Valid()
    modifies db
    ensures db.Valid() && db.inTransaction == old(db.inTransaction)
    ensures ok <==> !faults.statement(at) && !faults.statement(at + 1)
    ensures db.working == if faults.statement(at) then old(db.working)
                          else old(db.working).(version := if ok then Some(version) else None)
    ensures db.committed == if db.inTransaction then old(db.committed) else db.working
  {
    if faults.statement(at) {
      return false;
    }
    db.Write(db.working.(version := None));
    if faults.statement(at + 1) {
      return false;
    }
    db.Write(db.working.(version := Some(version)));
    ok := true;
  }

  /** The statements of an ordinary migration to `target`. */
  method RunMigration(db: Connection<Schema>, target: int, fault: bool) returns (ok: bool)
    requires db.Valid() && db.inTransaction
    modifies db
    ensures db.Valid() && db.inTransaction && db.committed == old(db.committed)
    ensures ok <==> !fault
    ensures ok ==> db.working == old(db.working).(
      steps := old(db.working).steps + [target], cancelled := old(db.working).cancelled || target == 6)
    ensures !ok ==> db.working == old(db.working).(partial := true)
  {
    if fault {
      db.Write(db.working.(partial := true));
      return false;
    }
    // Version 6 creates the build table, and this source creates it with 'Cancelled'.
    db.Write(db.working.(steps := db.working.steps + [target], cancelled := db.working.cancelled || target == 6));
    ok := true;
  }

  /** One ordinary rung: nothing unless the ladder stands exactly at `from`. */
  method Advance(db: Connection<Schema>, version: nat, from: nat, faults: Faults, ghost start: Schema)
    returns (ok: bool, reached: nat)
    requires Climbing(db, start, version)
    modifies db
    ensures !ok ==> db.Idle() && db.committed == start
    ensures ok ==> reached == (if version == from then from + 1 else version) && Climbing(db, start, reached)
    ensures ok ==> db.working.cancelled == (old(db.working).cancelled || version == from == 5)
    ensures ok <==> (version == from ==> RungOk(faults, from))
  {
    reached := version;
    if version == from {
      var migrated := RunMigration(db, from + 1, faults.statement(4 * from));
      if !migrated {
        db.Rollback();
        return false, version;
      }
      var recorded := SetSchemaVersion(db, from + 1, faults, 4 * from + 1);
      if !recorded {
        db.Rollback();
        return false, version;
      }
      UpToNext(from);
      reached := from + 1;
    }
    ok := true;
  }

  /**
   A migration that rebuilds a referenced table in a transaction of its own, with foreign keys switched off
   around it: 10 to 11 where 'Cancelled' is missing, 15 to 16, and 26 to 27. What comes after its commit
   (switching the keys back on, checking them) can still fail.
   */
  method Rebuild(db: Connection<Schema>, from: nat, faults: Faults) returns (ok: bool)
    requires db.Idle() && At(db.committed, from) && from > 0
    modifies db
    ensures db.Idle()
    ensures At(db.committed, from + 1) || db.committed == old(db.committed)
    ensures ok ==> At(db.committed, from + 1)
    ensures ok ==> db.committed.cancelled == (old(db.committed).cancelled || from != 15)
    ensures ok <==> RebuildOk(faults, from)
  {
    var at := 4 * from;
    if faults.statement(at) {
      return false;
    }
    var begun := db.Begin(faults.begin);
    if !begun {
      return false;
    }
    if faults.statement(at + 1) {
      db.Write(db.working.(partial := true));
      db.Rollback();
      return false;
    }
    db.Write(db.working.(steps := db.working.steps + [from + 1],
                             cancelled := db.working.cancelled || from != 15));
    var recorded := SetSchemaVersion(db, from + 1, faults, at + 2);
    if !recorded {
      db.Rollback();
      return false;
    }
    var done := db.Commit(faults.commit);
    if !done {
      db.Rollback();
      return false;
    }
    UpToNext(from);
    ok := !faults.statement(AFTER_REBUILD + from);
  }

  /**
   10 to 11 where the build table already knows 'Cancelled': there is nothing to rebuild, and the step is the
   version row itself. Called before the ladder's transaction, its two statements commit one by one.
   */
  method MarkVersion11(db: Connection<Schema>, faults: Faults) returns (ok: bool)
    requires db.Valid()
    modifies db
    ensures db.Valid() && db.inTransaction == old(db.inTransaction)
    ensures db.inTransaction ==> db.committed == old(db.committed)
    ensures ok <==> !faults.statement(40) && !faults.statement(41)
    ensures ok ==> db.working == old(db.working).(version := Some(11), steps := old(db.working).steps + [11])
    ensures !ok ==>
      db.working == old(db.working).(version := if faults.statement(40) then old(db.working).version else None)
  {
    ok := SetSchemaVersion(db, 11, faults, 40);
    if ok {
      db.Write(db.working.(steps := db.working.steps + [11]));
    }
  }

  /** 10 to 11 inside the ladder; `nested` reports a BEGIN inside a transaction, which SQLite refuses. */
  method Advance10(db: Connection<Schema>, version: nat, faults: Faults, ghost start: Schema)
    returns (ok: bool, reached: nat, nested: bool)
    requires Climbing(db, start, version)
    modifies db
    ensures !ok ==> db.Idle() && db.committed == start
    ensures ok ==> reached == (if version == 10 then 11 else version) && Climbing(db, start, reached)
    ensures nested ==> version == 10 && !old(db.working).cancelled
    ensures version == 10 && !old(db.working).cancelled ==> !ok
    ensures ok ==> db.working.cancelled == old(db.working).cancelled
    ensures ok <==> (version == 10 ==> old(db.working).cancelled && MarkOk(faults))
    ensures faults.Quiet() && version == 10 && !old(db.working).cancelled ==> nested
  {
    reached, nested := version, false;
    if version == 10 {
      if db.working.cancelled {
        ok := MarkVersion11(db, faults);
      } else {
        nested := !faults.statement(40);
        var begun := db.Begin(faults.begin);
        ok := begun;
      }
      if !ok {
        db.Rollback();
        return;
      }
      UpToNext(10);
      reached := 11;
    }
    ok := true;
  }

  method ClimbTo5(db: Connection<Schema>, version: nat, faults: Faults, ghost start: Schema)
    returns (ok: bool, reached: nat)
    requires Climbing(db, start, version)
    modifies db
    ensures !ok ==> db.Idle() && db.committed == start
    ensures ok ==> reached == (if version < 5 then 5 else version) && Climbing(db, start, reached)
    ensures ok ==> db.working.cancelled == old(db.working).cancelled
    ensures ok <==> forall i: nat | version <= i < 5 :: RungOk(faults, i)
  {
    ok, reached := Advance(db, version, 0, faults, start);
    if !ok { return; }
    ok, reached := Advance(db, reached, 1, faults, start);
    if !ok { return; }
    ok, reached := Advance(db, reached, 2, faults, start);
    if !ok { return; }
    ok, reached := Advance(db, reached, 3, faults, start);
    if !ok { return; }
    ok, reached := Advance(db, reached, 4, faults, start);
  }

  method ClimbTo10(db: Connection<Schema>, version: nat, faults: Faults, ghost start: Schema)
    returns (ok: bool, reached: nat)
    requires Climbing(db, start, version)
    modifies db
    ensures !ok ==> db.Idle() && db.committed == start
    ensures ok ==> reached == (if version < 10 then 10 else version) && Climbing(db, start, reached)
    ensures ok ==> db.working.cancelled == (old(db.working).cancelled || version <= 5)
    ensures ok <==> forall i: nat | version <= i < 10 :: RungOk(faults, i)
  {
    ok, reached := ClimbTo5(db, version, faults, start);
    if !ok { return; }
    ok, reached := Advance(db, reached, 5, faults, start);
    if !ok { return; }
    ok, reached := Advance(db, reached, 6, faults, start);
    if !ok { return; }
    ok, reached := Advance(db, reached, 7, faults, start);
    if !ok { return; }
    ok, reached := Advance(db, reached, 8, faults, start);
    if !ok { return; }
    ok, reached := Advance(db, reached, 9, faults, start);
  }

  method Climb11To15(db: Connection<Schema>, version: nat, faults: Faults, ghost start: Schema)
    returns (ok: bool, reached: nat)
    requires Climbing(db, start, version) && version >= 11
    modifies db
    ensures !ok ==> db.Idle() && db.committed == start
    ensures ok ==> reached == (if version < 15 then 15 else version) && Climbing(db, start, reached)
    ensures ok ==> db.working.cancelled == old(db.working).cancelled
    ensures ok <==> forall i: nat | version <= i < 15 :: RungOk(faults, i)
  {
    ok, reached := Advance(db, version, 11, faults, start);
    if !ok { return; }
    ok, reached := Advance(db, reached, 12, faults, start);
    if !ok { return; }
    ok, reached := Advance(db, reached, 13, faults, start);
    if !ok { return; }
    ok, reached := Advance(db, reached, 14, faults, start);
  }

  method Climb16To21(db: Connection<Schema>, version: nat, faults: Faults, ghost start: Schema)
    returns (ok: bool, reached: nat)
    requires Climbing(db, start, version) && version >= 16
    modifies db
    ensures !ok ==> db.Idle() && db.committed == start
    ensures ok ==> reached == (if version < 21 then 21 else version) && Climbing(db, start, reached)
    ensures ok ==> db.working.cancelled == old(db.working).cancelled
    ensures ok <==> forall i: nat | version <= i < 21 :: RungOk(faults, i)
  {
    ok, reached := Advance(db, version, 16, faults, start);
    if !ok { return; }
    ok, reached := Advance(db, reached, 17, faults, start);
    if !ok { return; }
    ok, reached := Advance(db, reached, 18, faults, start);
    if !ok { return; }
    ok, reached := Advance(db, reached, 19, faults, start);
    if !ok { return; }
    ok, reached := Advance(db, reached, 20, faults, start);
  }

  method Climb16To26(db: Connection<Schema>, version: nat, faults: Faults, ghost start: Schema)
    returns (ok: bool, reached: nat)
    requires Climbing(db, start, version) && version >= 16
    modifies db
    ensures !ok ==> db.Idle() && db.committed == start
    ensures ok ==> reached == (if version < 26 then 26 else version) && Climbing(db, start, reached)
    ensures ok ==> db.working.cancelled == old(db.working).cancelled
    ensures ok <==> forall i: nat | version <= i < 26 :: RungOk(faults, i)
  {
    ok, reached := Climb16To21(db, version, faults, start);
    if !ok { return; }
    ok, reached := Advance(db, reached, 21, faults, start);
    if !ok { return; }
    ok, reached := Advance(db, reached, 22, faults, start);
    if !ok { return; }
    ok, reached := Advance(db, reached, 23, faults, start);
    if !ok { return; }
    ok, reached := Advance(db, reached, 24, faults, start);
    if !ok { return; }
    ok, reached := Advance(db, reached, 25, faults, start);
  }

  method Climb27To35(db: Connection<Schema>, version: nat, faults: Faults, ghost start: Schema)
    returns (ok: bool, reached: nat)
    requires Climbing(db, start, version) && version >= 27
    modifies db
    ensures !ok ==> db.Idle() && db.committed == start
    ensures ok ==> reached == (if version < 35 then 35 else version) && Climbing(db, start, reached)
    ensures ok ==> db.working.cancelled == old(db.working).cancelled
    ensures ok <==> forall i: nat | version <= i < 35 :: RungOk(faults, i)
  {
    ok, reached := Advance(db, version, 27, faults, start);
    if !ok { return; }
    ok, reached := Advance(db, reached, 28, faults, start);
    if !ok { return; }
    ok, reached := Advance(db, reached, 29, faults, start);
    if !ok { return; }
    ok, reached := Advance(db, reached, 30, faults, start);
    if !ok { return; }
    ok, reached := Advance(db, reached, 31, faults, start);
    if !ok { return; }
    ok, reached := Advance(db, reached, 32, faults, start);
    if !ok { return; }
    ok, reached := Advance(db, reached, 33, faults, start);
    if !ok { return; }
    ok, reached := Advance(db, reached, 34, faults, start);
  }

  /** Where the ladder leaves its transaction to rebuild a table: commit, rebuild, begin again. */
  method CommitAndRebuild(db: Connection<Schema>, version: nat, at: nat, faults: Faults, ghost start: Schema)
    returns (ok: bool, reached: nat)
    requires Climbing(db, start, version) && at > 0
    modifies db
    ensures !ok ==> db.Idle()
    ensures !ok ==> db.committed == start || (version == at && (At(db.committed, at) || At(db.committed, at + 1)))
    ensures ok && version == at ==> reached == at + 1 && Climbing(db, db.committed, at + 1) && At(db.committed, at + 1)
    ensures ok && version != at ==> reached == version && Climbing(db, start, version)
    ensures ok ==> db.working.cancelled == (old(db.working).cancelled || (version == at && at != 15))
    ensures ok <==> (version == at ==> RebuildOk(faults, at))
  {
    reached := version;
    if version == at {
      var done := db.Commit(faults.commit);
      if !done {
        db.Rollback();
        return false, version;
      }
      var rebuilt := Rebuild(db, at, faults);
      if !rebuilt {
        return false, version;
      }
      reached := at + 1;
      var begun := db.Begin(faults.begin);
      if !begun {
        return false, version;
      }
    }
    ok := true;
  }

  /** What may be committed when initialize returns, having started at version `v`. */
  ghost predicate Committed(start: Schema, v: nat, s: Schema) {
    || s == start
    || (v == 10 && At(s, 11))
    || (v <= 15 && (At(s, 15) || At(s, 16)))
    || (v <= 26 && (At(s, 26) || At(s, 27)))
    || (v <= 35 && At(s, 35))
  }

  /** The rebuilds that come before the ladder's transaction, for databases left exactly at their version. */
  method RebuildFirst(db: Connection<Schema>, faults: Faults, ghost v: nat) returns (ok: bool, version: nat)
    requires db.Idle() && At(db.committed, v)
    modifies db
    ensures db.Idle()
    ensures ok ==> version == (if v in {10, 15, 26} then v + 1 else v) && At(db.committed, version)
    ensures v !in {10, 15, 26} ==> db.committed == old(db.committed)
    ensures !(v == 10 && old(db.committed).cancelled) ==> Committed(old(db.committed), v, db.committed)
    ensures v == 10 && old(db.committed).cancelled ==>
      db.committed == old(db.committed) || At(db.committed, 11)
      || db.committed == old(db.committed).(version := None)
    ensures v == 10 && old(db.committed).cancelled ==>
      (db.committed == old(db.committed).(version := None) <==> !faults.statement(40) && faults.statement(41))
    ensures ok ==> db.committed.cancelled == (old(db.committed).cancelled || v == 10 || v == 26)
    ensures ok <==> (v in {10, 15, 26} ==> StepOk(faults, v, old(db.committed).cancelled))
  {
    version := RecordedVersion(db.working);
    ok := true;
    if version == 10 {
      if db.working.cancelled {
        ok := MarkVersion11(db, faults);
        UpToNext(10);
        OneStepLonger(old(db.committed));
      } else {
        ok := Rebuild(db, 10, faults);
      }
      version := 11;
    } else if version == 15 {
      ok := Rebuild(db, 15, faults);
      version := 16;
    } else if version == 26 {
      ok := Rebuild(db, 26, faults);
      version := 27;
    }
  }

  lemma OneStepLonger(s: Schema)
    ensures s.steps + [11] != s.steps
  {
    assert |s.steps + [11]| != |s.steps|;
  }

  /** The ladder inside its transaction, up to the final validation. */
  method Climb(db: Connection<Schema>, version: nat, faults: Faults, ghost start: Schema)
    returns (ok: bool, reached: nat, nested: bool)
    requires Climbing(db, start, version) && db.working == start && version !in {10, 15, 26}
    modifies db
    ensures !ok ==> db.Idle()
    ensures Committed(start, version, db.committed)
    ensures ok ==> reached == (if version < 35 then 35 else version) && Climbing(db, db.committed, reached)
    ensures ok ==> db.working.cancelled == (start.cancelled || version <= 26)
    ensures nested ==> 6 <= version <= 9 && !start.cancelled
    ensures 6 <= version <= 9 && !start.cancelled ==> !ok && db.committed == start
    ensures ok <==>
      !(6 <= version <= 9 && !start.cancelled)
      && StepsOk(faults, version, start.cancelled || version <= 5)
    ensures faults.Quiet() ==> (nested <==> 6 <= version <= 9 && !start.cancelled)
  {
    nested := false;
    OrdinarySteps(faults, start.cancelled || version <= 5);
    ok, reached := ClimbTo10(db, version, faults, start);
    if !ok { return; }
    ok, reached, nested := Advance10(db, reached, faults, start);
    if !ok { return; }
    ok, reached := Climb11To15(db, reached, faults, start);
    if !ok { return; }
    ok, reached := CommitAndRebuild(db, reached, 15, faults, start);
    if !ok { return; }
    ghost var middle := db.committed;
    ok, reached := Climb16To26(db, reached, faults, middle);
    if !ok { return; }
    ok, reached := CommitAndRebuild(db, reached, 26, faults, middle);
    if !ok { return; }
    ghost var late := db.committed;
    ok, reached := Climb27To35(db, reached, faults, late);
  }

  /**
   DatabaseSchema::initialize on a database committed at version `v`. `nested` reports whether a BEGIN was
   tried inside a transaction.
   */
  method Initialize(db: Connection<Schema>, faults: Faults, ghost v: nat) returns (ok: bool, nested: bool)
    requires db.Idle() && At(db.committed, v)
    modifies db
    ensures db.Idle()
    ensures ok ==> At(db.committed, CURRENT) && v <= CURRENT
    ensures ok ==> |db.committed.steps| == CURRENT && db.committed.steps[..v] == old(db.committed).steps
    ensures ok ==> forall i | v <= i < CURRENT :: db.committed.steps[i] == i + 1
    ensures ok ==> db.committed.cancelled == (old(db.committed).cancelled || v <= 26)
    ensures !(v == 10 && old(db.committed).cancelled) ==> Committed(old(db.committed), v, db.committed)
    ensures v == 10 && old(db.committed).cancelled ==>
      Committed(old(db.committed), v, db.committed) || db.committed == old(db.committed).(version := None)
    ensures v == 10 && old(db.committed).cancelled ==>
      (db.committed == old(db.committed).(version := None) <==>
       !faults.statement(READING) && !faults.statement(40) && faults.statement(41))
    ensures nested ==> 6 <= v <= 9 && !old(db.committed).cancelled
    ensures 6 <= v <= 9 && !old(db.committed).cancelled ==> !ok && db.committed == old(db.committed)
    ensures ok <==>
      && v <= CURRENT && !(6 <= v <= 9 && !old(db.committed).cancelled)
      && !faults.begin && !faults.commit && !faults.statement(READING) && !faults.statement(SEEDING)
      && StepsOk(faults, v, old(db.committed).cancelled || v <= 5)
  {
    nested := false;
    LaterSteps(faults, old(db.committed).cancelled || v <= 5);
    if faults.statement(READING) {
      return false, nested;
    }
    var first, version := RebuildFirst(db, faults, v);
    if !first {
      return false, nested;
    }
    ghost var start := db.committed;
    var begun := db.Begin(faults.begin);
    if !begun {
      return false, nested;
    }
    var climbed, reached, inside := Climb(db, version, faults, start);
    nested := inside;
    if !climbed {
      return false, nested;
    }
    if reached != CURRENT || faults.statement(SEEDING) {
      db.Rollback();
      return false, nested;
    }
    var done := db.Commit(faults.commit);
    if !done {
      db.Rollback();
      return false, nested;
    }
    SameSteps(faults, v, version, old(db.committed).cancelled || v <= 5, start.cancelled || version <= 5);
    ok := true;
  }

  // ----- What the contract means

  /** Whatever is committed, also when a later step fails, is a whole version no older than before. */
  lemma CommittedIsWhole(start: Schema, v: nat, s: Schema)
    requires At(start, v) && Committed(start, v, s)
    ensures exists w: nat :: At(s, w) && v <= w && (w == v || w in {11, 15, 16, 26, 27, 35})
  {
    if s == start {
      assert At(s, v);
    } else if v == 10 && At(s, 11) {
      assert At(s, 11);
    } else if v <= 15 && At(s, 15) {
      assert At(s, 15);
    } else if v <= 15 && At(s, 16) {
      assert At(s, 16);
    } else if v <= 26 && At(s, 26) {
      assert At(s, 26);
    } else if v <= 26 && At(s, 27) {
      assert At(s, 27);
    } else {
      assert At(s, 35);
    }
  }

  // ----- Start after start

  /** Committed at version 10 with a build table that knows 'Cancelled': the state MarkVersion11 is called in. */
  ghost predicate Exposed(s: Schema) {
    At(s, 10) && s.cancelled
  }

  /** One start of the program, failed or not, on a database that is at a whole version. */
  ghost predicate Started(s: Schema, t: Schema) {
    forall v: nat | At(s, v) :: Committed(s, v, t) || (Exposed(s) && t == s.(version := None))
  }

  /**
   The one way to lose the version: with its version row deleted and not written again, a database that was at
   version 10 is at no version at all, and reads as a new one.
   */
  lemma LostVersionRow(s: Schema)
    requires Exposed(s)
    ensures Started(s, s.(version := None))
    ensures !Whole(s.(version := None)) && RecordedVersion(s.(version := None)) == 0
  {
    var lost := s.(version := None);
    forall w: nat ensures !At(lost, w) {
      assert |UpTo(w)| == w && |UpTo(10)| == 10;
    }
    forall v: nat | At(s, v) ensures Committed(s, v, lost) || (Exposed(s) && lost == s.(version := None)) {
    }
  }

  lemma OneStart(s: Schema, t: Schema)
    requires Whole(s) && !Exposed(s) && Started(s, t)
    ensures Whole(t) && !Exposed(t) && s.steps <= t.steps
  {
    var v: nat :| At(s, v);
    CommittedIsWhole(s, v, t);
    var w: nat :| At(t, w) && v <= w && (w == v || w in {11, 15, 16, 26, 27, 35});
    assert UpTo(v) <= UpTo(w);
    assert At(t, 10) ==> t.version == Some(10) && t == s;
  }

  /** A whole database stays whole whatever a start meets, exactly when it is not exposed. */
  lemma SafeUnlessExposed(s: Schema)
    requires Whole(s)
    ensures (forall t | Started(s, t) :: Whole(t)) <==> !Exposed(s)
  {
    if Exposed(s) {
      LostVersionRow(s);
    } else {
      forall t | Started(s, t) ensures Whole(t) {
        OneStart(s, t);
      }
    }
  }

  /**
   Over any number of starts, whatever each of them meets, a database that does not begin exposed is at a whole
   version, is never exposed later, and loses no applied migration.
   */
  lemma {:induction false} StartsOnlyClimb(states: seq<Schema>, n: nat)
    requires n < |states| && Whole(states[0]) && !Exposed(states[0])
    requires forall i | 0 <= i < |states| - 1 :: Started(states[i], states[i + 1])
    ensures Whole(states[n]) && !Exposed(states[n]) && states[0].steps <= states[n].steps
  {
    if n > 0 {
      StartsOnlyClimb(states, n - 1);
      assert Started(states[n - 1], states[n - 1 + 1]);
      OneStart(states[n - 1], states[n]);
    }
  }

  /** The same for the program itself: one start after another, each with its own mishaps. */
  method StartAgainAndAgain(db: Connection<Schema>, mishaps: seq<Faults>)
    requires db.Idle() && Whole(db.committed) && !Exposed(db.committed)
    modifies db
    ensures db.Idle() && Whole(db.committed) && !Exposed(db.committed)
    ensures old(db.committed).steps <= db.committed.steps
  {
    var i := 0;
    while i < |mishaps|
      invariant i <= |mishaps| && db.Idle() && Whole(db.committed) && !Exposed(db.committed)
      invariant old(db.committed).steps <= db.committed.steps
    {
      ghost var v: nat :| At(db.committed, v);
      ghost var before := db.committed;
      var _, _ := Initialize(db, mishaps[i], v);
      AnyVersion(before, v, db.committed);
      OneStart(before, db.committed);
      i := i + 1;
    }
  }

  lemma AnyVersion(s: Schema, v: nat, t: Schema)
    requires At(s, v) && (Committed(s, v, t) || (Exposed(s) && t == s.(version := None)))
    ensures Started(s, t)
  {
    forall w: nat | At(s, w) ensures w == v {
      assert |UpTo(v)| == v && |UpTo(w)| == w;
    }
  }
}
