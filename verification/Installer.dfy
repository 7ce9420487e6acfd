/**
 Replacing installed files by staged ones, all or nothing (replace_transaction of the Linux installer). The
 disk is a map from paths to nodes. A run can be stopped once, by a failing rename, a failing final check,
 or an interrupt that arrives between a rename and the line that records it.
 */
module Installer {
  import opened Wrappers

  /** A directory stands for a tree with something in it. */
  datatype Node = File(data: Text) | Directory(tree: Text)

  type Disk = map<Text, Node>

  /** `staged` is the payload to move into place; without one the target is uninstalled. */
  datatype Change = Change(target: Text, staged: Option<Text>)

  function Lookup(d: Disk, p: Text): Option<Node> {
    if p in d then Some(d[p]) else None
  }

  /** rename(2): moves `a` over `b`, but a tree is neither replaced nor moved over something. */
  function Rename(d: Disk, a: Text, b: Text): Option<Disk> {
    if a !in d || (b in d && (d[a].Directory? || d[b].Directory?)) then None
    else Some((d - {a})[b := d[a]])
  }

  // ----- What can stop a run

  datatype Point =
    | AtBackup     // nothing done yet for this change
    | AfterBackup  // the old file is renamed, but not on the list of backups
    | AtPlace      // on the list, the payload not yet in place
    | AfterPlace   // in place, but not on the list of completed targets

  datatype Stop = Never | During(change: nat, point: Point) | AtCheck

  /** The first change whose payload is missing. */
  function FirstMissing(d: Disk, changes: seq<Change>, from: nat): (r: nat)
    requires from <= |changes|
    ensures from <= r <= |changes|
    ensures forall j | from <= j < r :: Present(d, changes[j])
    ensures r < |changes| ==> !Present(d, changes[r])
    decreases |changes| - from
  {
    if from == |changes| || !Present(d, changes[from]) then from else FirstMissing(d, changes, from + 1)
  }

  predicate Present(d: Disk, c: Change) {
    c.staged.Some? ==> c.staged.value in d
  }

  /** What really ends the run: a missing payload fails its rename unless something stopped the run before. */
  function Cause(d: Disk, changes: seq<Change>, stop: Stop): Stop {
    var f := FirstMissing(d, changes, 0);
    if stop.During? && (stop.change < f || (stop.change == f && stop.point != AfterPlace)) then stop
    else if f < |changes| then During(f, AtPlace)
    else stop
  }

  /** The stops after which the roll-back brings every target back. */
  predicate Recoverable(d: Disk, changes: seq<Change>, cause: Stop)
    requires cause.During? ==> cause.change < |changes|
  {
    match cause
    case Never => true
    case AtCheck => true
    case During(i, AfterBackup) => changes[i].target !in d
    case During(i, AfterPlace) =>
      var c := changes[i];
      c.staged.None? || (c.staged.value in d && d[c.staged.value].File? && c.target in d && d[c.target].File?)
    case During(_, _) => true
  }

  // ----- Where each change stands

  datatype Stage =
    | Untouched  // as before
    | Moved      // the old file under its backup name, the target free
    | Placed     // the payload at the target, the old file under its backup name
    | Cleared    // the payload removed again
    | Restored   // the old file back, the payload gone
    | Installed  // the payload at the target, the old file gone

  ghost predicate Holds(d0: Disk, d: Disk, c: Change, name: Text, stage: Stage) {
    var before := Lookup(d0, c.target);
    var payload := if c.staged.Some? then Lookup(d0, c.staged.value) else None;
    && Lookup(d, c.target) == (
         match stage
         case Untouched => before
         case Moved => None
         case Placed => payload
         case Cleared => None
         case Restored => before
         case Installed => payload)
    && Lookup(d, name) == (if stage.Moved? || stage.Placed? || stage.Cleared? then before else None)
    && (c.staged.Some? ==>
          Lookup(d, c.staged.value) == if stage.Untouched? || stage.Moved? then payload else None)
  }

  predicate Involves(c: Change, name: Text, p: Text) {
    p == c.target || p == name || Some(p) == c.staged
  }

  /** Targets, payloads and backup names are all different paths. */
  ghost predicate Separate(changes: seq<Change>, names: seq<Text>) {
    && |names| == |changes|
    && (forall i | 0 <= i < |changes| ::
          && names[i] != changes[i].target && changes[i].staged != Some(names[i])
          && changes[i].staged != Some(changes[i].target))
    && forall i, j, p | 0 <= i < |changes| && 0 <= j < |changes| && i != j && Involves(changes[i], names[i], p) ::
         !Involves(changes[j], names[j], p)
  }

  /** The path belongs to none of the changes. */
  ghost predicate Elsewhere(changes: seq<Change>, names: seq<Text>, p: Text)
    requires |names| == |changes|
  {
    forall j | 0 <= j < |changes| :: !Involves(changes[j], names[j], p)
  }

  /** The whole disk: every change at its stage, everything else as before. */
  ghost predicate Picture(d0: Disk, d: Disk, changes: seq<Change>, names: seq<Text>, stages: seq<Stage>) {
    && |stages| == |names| == |changes|
    && (forall j | 0 <= j < |changes| :: Holds(d0, d, changes[j], names[j], stages[j]))
    && forall p {:trigger Elsewhere(changes, names, p)} | Elsewhere(changes, names, p) ::
         Lookup(d, p) == Lookup(d0, p)
  }

  /** `d` and `e` differ at most in the paths of one change. */
  ghost predicate SameElsewhere(d: Disk, e: Disk, c: Change, name: Text) {
    forall p | !Involves(c, name, p) :: Lookup(d, p) == Lookup(e, p)
  }

  lemma OneChange(
    d0: Disk, d: Disk, e: Disk, changes: seq<Change>, names: seq<Text>, stages: seq<Stage>, j: nat, stage: Stage)
    requires Separate(changes, names) && Picture(d0, d, changes, names, stages) && j < |changes|
    requires SameElsewhere(d, e, changes[j], names[j]) && Holds(d0, e, changes[j], names[j], stage)
    ensures Picture(d0, e, changes, names, stages[j := stage])
  {
    var after := stages[j := stage];
    forall i | 0 <= i < |changes| ensures Holds(d0, e, changes[i], names[i], after[i]) {
      if i != j {
        var c := changes[i];
        assert Involves(c, names[i], c.target) && Involves(c, names[i], names[i]);
        assert c.staged.Some? ==> Involves(c, names[i], c.staged.value);
        assert Holds(d0, d, c, names[i], stages[i]);
      }
    }
  }

  // ----- Moving forward

  /** Where a stop at `point` leaves the change it hits. */
  function StageAt(point: Point): Stage {
    match point
    case AtBackup => Untouched
    case AfterBackup => Moved
    case AtPlace => Moved
    case AfterPlace => Placed
  }

  /** The backup of the change is on the list by then, if there was something to back up. */
  predicate IsRecorded(point: Point) {
    point == AtPlace || point == AfterPlace
  }

  /** What raises while a change is made that is to be stopped at `stop`, if anywhere. */
  function Raised(stop: Option<Point>, present: bool): Option<Point> {
    if stop.Some? && (stop.value != AfterPlace || present) then stop
    else if present then None else Some(AtPlace)
  }

  function StopHere(stop: Stop, n: nat): Option<Point> {
    if stop.During? && stop.change == n then Some(stop.point) else None
  }

  /** One pass through the loop body: where it was stopped, and whether it put a backup on the list. */
  method MakeOne(d: Disk, c: Change, name: Text, stop: Option<Point>)
    returns (raised: Option<Point>, e: Disk, recorded: bool)
    requires name != c.target && c.staged != Some(name) && c.staged != Some(c.target) && name !in d
    ensures raised == Raised(stop, Present(d, c))
    ensures Holds(d, e, c, name, if raised.Some? then StageAt(raised.value) else Placed)
    ensures SameElsewhere(d, e, c, name)
    ensures recorded <==> c.target in d && (raised.Some? ==> IsRecorded(raised.value))
  {
    e, recorded := d, false;
    if stop == Some(AtBackup) {
      return stop, e, recorded;
    }
    if c.target in d {
      e := Rename(d, c.target, name).value;
    }
    if stop == Some(AfterBackup) {
      return stop, e, recorded;
    }
    recorded := c.target in d;
    if stop == Some(AtPlace) {
      return stop, e, recorded;
    }
    if c.staged.Some? {
      var moved := Rename(e, c.staged.value, c.target);
      if moved.None? {
        return Some(AtPlace), e, recorded;
      }
      e := moved.value;
    }
    raised := if stop == Some(AfterPlace) then stop else None;
  }

  /** The list of backups after the first `n` changes. */
  function Backups(d: Disk, changes: seq<Change>, names: seq<Text>, n: nat): seq<(Text, Text)>
    requires n <= |changes| == |names|
  {
    if n == 0 then []
    else
      Backups(d, changes, names, n - 1)
        + if changes[n - 1].target in d then [(changes[n - 1].target, names[n - 1])] else []
  }

  function Targets(changes: seq<Change>, n: nat): seq<Text>
    requires n <= |changes|
  {
    seq(n, j requires 0 <= j < n => changes[j].target)
  }

  /** The first `n` changes at `done`, the next at `here`, the others untouched. */
  function Layout(total: nat, n: nat, done: Stage, here: Stage): seq<Stage> {
    seq(total, j => if j < n then done else if j == n then here else Untouched)
  }

  predicate Fresh(d: Disk, names: seq<Text>) {
    forall i | 0 <= i < |names| :: names[i] !in d
  }

  lemma NothingDone(d: Disk, changes: seq<Change>, names: seq<Text>)
    requires Separate(changes, names) && Fresh(d, names)
    ensures Picture(d, d, changes, names, Layout(|changes|, 0, Placed, Untouched))
  {
  }

  /** What one change did to the disk it found, seen from the disk at the beginning. */
  lemma OneMade(
    d0: Disk, d: Disk, e: Disk, changes: seq<Change>, names: seq<Text>, n: nat, stage: Stage)
    requires Separate(changes, names) && n < |changes|
    requires Picture(d0, d, changes, names, Layout(|changes|, n, Placed, Untouched))
    requires Holds(d, e, changes[n], names[n], stage) && SameElsewhere(d, e, changes[n], names[n])
    ensures Picture(d0, e, changes, names, Layout(|changes|, n, Placed, stage))
    ensures stage == Placed ==> Picture(d0, e, changes, names, Layout(|changes|, n + 1, Placed, Untouched))
  {
    var stages := Layout(|changes|, n, Placed, Untouched);
    assert Holds(d0, d, changes[n], names[n], stages[n]);
    OneChange(d0, d, e, changes, names, stages, n, stage);
    assert stages[n := stage] == Layout(|changes|, n, Placed, stage);
    assert stages[n := Placed] == Layout(|changes|, n + 1, Placed, Untouched);
  }

  /** Presence of the payload and of the target of a change not yet reached. */
  lemma NotYetReached(d0: Disk, d: Disk, changes: seq<Change>, names: seq<Text>, n: nat)
    requires Picture(d0, d, changes, names, Layout(|changes|, n, Placed, Untouched)) && n < |changes|
    requires Fresh(d0, names)
    ensures Present(d, changes[n]) <==> Present(d0, changes[n])
    ensures changes[n].target in d <==> changes[n].target in d0
    ensures names[n] !in d
  {
    assert Holds(d0, d, changes[n], names[n], Layout(|changes|, n, Placed, Untouched)[n]);
  }

  /** The lists and the disk when the first `n` changes are made and nothing has stopped the run. */
  ghost predicate Going(
    d0: Disk, d: Disk, changes: seq<Change>, names: seq<Text>, stop: Stop, n: nat,
    backups: seq<(Text, Text)>, completed: seq<Text>)
  {
    && |changes| == |names| && n <= FirstMissing(d0, changes, 0) && (stop.During? ==> n <= stop.change)
    && Picture(d0, d, changes, names, Layout(|changes|, n, Placed, Untouched))
    && backups == Backups(d0, changes, names, n) && completed == Targets(changes, n)
  }

  /** The state in which the roll-back begins. */
  ghost predicate Stopped(
    d0: Disk, d: Disk, changes: seq<Change>, names: seq<Text>, cause: Stop,
    backups: seq<(Text, Text)>, completed: seq<Text>)
  {
    && |changes| == |names| && cause.During? && cause.change < |changes|
    && Picture(d0, d, changes, names, Layout(|changes|, cause.change, Placed, StageAt(cause.point)))
    && backups == Backups(d0, changes, names, cause.change + if IsRecorded(cause.point) then 1 else 0)
    && completed == Targets(changes, cause.change)
  }

  lemma CauseOfStop(d: Disk, changes: seq<Change>, stop: Stop, n: nat, at: Option<Point>)
    requires n < |changes| && n <= FirstMissing(d, changes, 0) && (stop.During? ==> n <= stop.change)
    requires at == Raised(StopHere(stop, n), Present(d, changes[n]))
    ensures at.Some? ==> Cause(d, changes, stop) == During(n, at.value)
    ensures at.None? ==> n + 1 <= FirstMissing(d, changes, 0) && (stop.During? ==> n + 1 <= stop.change)
  {
    var f := FirstMissing(d, changes, 0);
    assert n < f ==> Present(d, changes[n]);
  }

  lemma ListsGrow(d: Disk, changes: seq<Change>, names: seq<Text>, n: nat)
    requires n < |changes| == |names|
    ensures Targets(changes, n) + [changes[n].target] == Targets(changes, n + 1)
    ensures Backups(d, changes, names, n + 1)
      == Backups(d, changes, names, n) + if changes[n].target in d then [(changes[n].target, names[n])] else []
  {
  }

  /** The list of backups after change `n`, which was recorded if it had a target and the run came that far. */
  lemma Listed(
    d: Disk, changes: seq<Change>, names: seq<Text>, n: nat, backups: seq<(Text, Text)>, reached: bool, recorded: bool)
    requires n < |changes| == |names| && backups == Backups(d, changes, names, n)
    requires recorded <==> changes[n].target in d && reached
    ensures backups + (if recorded then [(changes[n].target, names[n])] else [])
      == Backups(d, changes, names, n + if reached then 1 else 0)
  {
    ListsGrow(d, changes, names, n);
    assert backups + [] == backups;
  }

  /** One pass through the loop. */
  method MakeNext(
    ghost d0: Disk, d: Disk, changes: seq<Change>, names: seq<Text>, stop: Stop, n: nat,
    backups: seq<(Text, Text)>, completed: seq<Text>)
    returns (raised: bool, e: Disk, backupsNow: seq<(Text, Text)>, completedNow: seq<Text>)
    requires Separate(changes, names) && Fresh(d0, names) && n < |changes|
    requires Going(d0, d, changes, names, stop, n, backups, completed)
    ensures raised ==> Stopped(d0, e, changes, names, Cause(d0, changes, stop), backupsNow, completedNow)
    ensures !raised ==> Going(d0, e, changes, names, stop, n + 1, backupsNow, completedNow)
  {
    NotYetReached(d0, d, changes, names, n);
    var c, name := changes[n], names[n];
    var at, recorded;
    at, e, recorded := MakeOne(d, c, name, StopHere(stop, n));
    OneMade(d0, d, e, changes, names, n, if at.Some? then StageAt(at.value) else Placed);
    CauseOfStop(d0, changes, stop, n, at);
    ListsGrow(d0, changes, names, n);
    Listed(d0, changes, names, n, backups, at.Some? ==> IsRecorded(at.value), recorded);
    backupsNow := backups + if recorded then [(c.target, name)] else [];
    completedNow := if at.Some? then completed else completed + [c.target];
    raised := at.Some?;
  }

  lemma CauseOfNoStop(d: Disk, changes: seq<Change>, stop: Stop)
    requires FirstMissing(d, changes, 0) == |changes| && (stop.During? ==> |changes| <= stop.change)
    ensures Cause(d, changes, stop) == stop
  {
  }

  /** The try block up to the final check. */
  method Forward(d0: Disk, changes: seq<Change>, names: seq<Text>, stop: Stop)
    returns (raised: bool, d: Disk, backups: seq<(Text, Text)>, completed: seq<Text>)
    requires Separate(changes, names) && Fresh(d0, names)
    requires stop.During? ==> stop.change < |changes|
    ensures !raised ==> !stop.During? && Cause(d0, changes, stop) == stop
    ensures !raised ==> Going(d0, d, changes, names, stop, |changes|, backups, completed)
    ensures raised ==> Stopped(d0, d, changes, names, Cause(d0, changes, stop), backups, completed)
  {
    d, backups, completed := d0, [], [];
    NothingDone(d0, changes, names);
    var i := 0;
    while i < |changes|
      invariant i <= |changes| && Going(d0, d, changes, names, stop, i, backups, completed)
    {
      raised, d, backups, completed := MakeNext(d0, d, changes, names, stop, i, backups, completed);
      if raised {
        return;
      }
      i := i + 1;
    }
    CauseOfNoStop(d0, changes, stop);
    raised := false;
  }

  // ----- Rolling back

  /** The first `n` changes during the removal of the completed targets: the last ones are cleared already. */
  function Clearing(total: nat, n: nat, k: nat, here: Stage): seq<Stage> {
    seq(total, j => if j < k then Placed else if j < n then Cleared else if j == n then here else Untouched)
  }

  lemma ClearingIsLayout(total: nat, n: nat, here: Stage)
    ensures Clearing(total, n, n, here) == Layout(total, n, Placed, here)
    ensures Clearing(total, n, 0, here) == Layout(total, n, Cleared, here)
  {
  }

  lemma ClearTarget(d0: Disk, d: Disk, changes: seq<Change>, names: seq<Text>, stages: seq<Stage>, j: nat)
    requires Separate(changes, names) && Picture(d0, d, changes, names, stages) && j < |changes|
    requires stages[j] == Placed
    ensures Picture(d0, d - {changes[j].target}, changes, names, stages[j := Cleared])
  {
    assert Holds(d0, d, changes[j], names[j], stages[j]);
    OneChange(d0, d, d - {changes[j].target}, changes, names, stages, j, Cleared);
  }

  lemma ClearOne(d0: Disk, d: Disk, changes: seq<Change>, names: seq<Text>, n: nat, k: nat, here: Stage)
    requires Separate(changes, names) && 0 < k <= n <= |changes|
    requires Picture(d0, d, changes, names, Clearing(|changes|, n, k, here))
    ensures Picture(d0, d - {changes[k - 1].target}, changes, names, Clearing(|changes|, n, k - 1, here))
  {
    var stages := Clearing(|changes|, n, k, here);
    ClearTarget(d0, d, changes, names, stages, k - 1);
    assert stages[k - 1 := Cleared] == Clearing(|changes|, n, k - 1, here);
  }

  /** `for target in reversed(completed): remove(target)`. */
  method RemoveCompleted(
    ghost d0: Disk, d: Disk, ghost changes: seq<Change>, ghost names: seq<Text>, ghost here: Stage,
    completed: seq<Text>)
    returns (e: Disk)
    requires Separate(changes, names) && |completed| <= |changes| && completed == Targets(changes, |completed|)
    requires Picture(d0, d, changes, names, Layout(|changes|, |completed|, Placed, here))
    ensures Picture(d0, e, changes, names, Layout(|changes|, |completed|, Cleared, here))
  {
    e := d;
    var k: nat := |completed|;
    ClearingIsLayout(|changes|, k, here);
    while k > 0
      invariant k <= |completed| && Picture(d0, e, changes, names, Clearing(|changes|, |completed|, k, here))
    {
      ClearOne(d0, e, changes, names, |completed|, k, here);
      e, k := e - {completed[k - 1]}, k - 1;
    }
  }

  /** Whether a backup can be renamed back over what is at its target now. */
  ghost predicate CanReturn(d0: Disk, c: Change, stage: Stage) {
    stage == Placed && c.target in d0 && c.staged.Some? && c.staged.value in d0 ==>
      d0[c.target].File? && d0[c.staged.value].File?
  }

  /** The stage of a change whose backup has been renamed back. */
  function Returned(stage: Stage): Stage {
    match stage
    case Moved => Untouched
    case Placed => Restored
    case Cleared => Restored
    case other => other
  }

  lemma ReturnOne(d0: Disk, d: Disk, changes: seq<Change>, names: seq<Text>, stages: seq<Stage>, j: nat)
    requires Separate(changes, names) && Picture(d0, d, changes, names, stages) && j < |changes|
    requires stages[j] == Moved || stages[j] == Placed || stages[j] == Cleared
    requires changes[j].target in d0
    ensures Rename(d, names[j], changes[j].target).Some? <==> CanReturn(d0, changes[j], stages[j])
    ensures CanReturn(d0, changes[j], stages[j]) ==>
      Picture(d0, Rename(d, names[j], changes[j].target).value, changes, names,
              stages[j := Returned(stages[j])])
  {
    var c, name := changes[j], names[j];
    assert Holds(d0, d, c, name, stages[j]);
    if CanReturn(d0, c, stages[j]) {
      var e := Rename(d, name, c.target).value;
      OneChange(d0, d, e, changes, names, stages, j, Returned(stages[j]));
    }
  }

  /** A change with nothing to restore is where it should be already. */
  lemma NothingToReturn(d0: Disk, d: Disk, changes: seq<Change>, names: seq<Text>, stages: seq<Stage>, j: nat)
    requires Separate(changes, names) && Picture(d0, d, changes, names, stages) && j < |changes|
    requires stages[j] == Moved || stages[j] == Cleared
    requires changes[j].target !in d0
    ensures Picture(d0, d, changes, names, stages[j := Returned(stages[j])])
  {
    assert Holds(d0, d, changes[j], names[j], stages[j]);
    OneChange(d0, d, d, changes, names, stages, j, Returned(stages[j]));
  }

  /** Where a change ends up: a payload nothing was backed up for stays in place. */
  function Final(d0: Disk, c: Change, stage: Stage): Stage {
    if stage == Placed && c.target !in d0 then Placed else Returned(stage)
  }

  /** The stages when the backups of the changes from `q` up to `m` are back. */
  function Returning(d0: Disk, changes: seq<Change>, stages: seq<Stage>, q: nat, m: nat): seq<Stage>
    requires |stages| == |changes|
  {
    seq(|stages|, j requires 0 <= j < |stages| => if q <= j < m then Final(d0, changes[j], stages[j]) else stages[j])
  }

  lemma ReturningOne(d0: Disk, changes: seq<Change>, stages: seq<Stage>, q: nat, m: nat)
    requires |stages| == |changes| && 0 < q <= m <= |changes|
    ensures Returning(d0, changes, stages, q, m)[q - 1] == stages[q - 1]
    ensures Returning(d0, changes, stages, q - 1, m)
      == Returning(d0, changes, stages, q, m)[q - 1 := Final(d0, changes[q - 1], stages[q - 1])]
  {
  }

  /** The changes the roll-back has to deal with: none in place except possibly the last. */
  predicate Rollable(stages: seq<Stage>, m: nat) {
    && m <= |stages|
    && (forall j | 0 <= j < m :: stages[j] == Cleared || (j == m - 1 && (stages[j] == Moved || stages[j] == Placed)))
  }

  lemma SkipOne(d0: Disk, d: Disk, changes: seq<Change>, names: seq<Text>, stages: seq<Stage>, q: nat, m: nat)
    requires Separate(changes, names) && |stages| == |changes| && 0 < q <= m && Rollable(stages, m)
    requires Picture(d0, d, changes, names, Returning(d0, changes, stages, q, m))
    requires changes[q - 1].target !in d0
    ensures Backups(d0, changes, names, q - 1) == Backups(d0, changes, names, q)
    ensures Picture(d0, d, changes, names, Returning(d0, changes, stages, q - 1, m))
  {
    ReturningOne(d0, changes, stages, q, m);
    var now := Returning(d0, changes, stages, q, m);
    if stages[q - 1] == Placed {
      assert now[q - 1 := Placed] == now;
    } else {
      NothingToReturn(d0, d, changes, names, now, q - 1);
    }
  }

  /** The only backup that may fail to return is that of a change in place but not recorded as completed. */
  ghost predicate AllCanReturn(d0: Disk, changes: seq<Change>, stages: seq<Stage>, m: nat)
    requires |stages| == |changes| && m <= |changes|
  {
    m > 0 && changes[m - 1].target in d0 ==> CanReturn(d0, changes[m - 1], stages[m - 1])
  }

  /** How far the second roll-back loop is. */
  ghost predicate Rolled(
    d0: Disk, d: Disk, changes: seq<Change>, names: seq<Text>, stages: seq<Stage>, q: nat, m: nat,
    backups: seq<(Text, Text)>)
  {
    && Separate(changes, names) && |stages| == |changes| && q <= m && Rollable(stages, m)
    && Picture(d0, d, changes, names, Returning(d0, changes, stages, q, m))
    && backups == Backups(d0, changes, names, q)
    && (q < m ==> AllCanReturn(d0, changes, stages, m))
  }

  /** Passing over changes that had nothing to back up. */
  lemma {:induction false} SkipIdle(
    d0: Disk, d: Disk, changes: seq<Change>, names: seq<Text>, stages: seq<Stage>, q: nat, m: nat,
    backups: seq<(Text, Text)>)
    returns (r: nat)
    requires Rolled(d0, d, changes, names, stages, q, m, backups)
    ensures Rolled(d0, d, changes, names, stages, r, m, backups) && r <= q
    ensures r > 0 ==> changes[r - 1].target in d0
    decreases q
  {
    r := q;
    if q > 0 && changes[q - 1].target !in d0 {
      SkipOne(d0, d, changes, names, stages, q, m);
      r := SkipIdle(d0, d, changes, names, stages, q - 1, m, backups);
    }
  }

  lemma NothingRolled(d0: Disk, changes: seq<Change>, stages: seq<Stage>, m: nat)
    requires |stages| == |changes|
    ensures Returning(d0, changes, stages, m, m) == stages
  {
  }

  /** One rename of the second roll-back loop, on the disk. */
  lemma ReturnOnDisk(d0: Disk, d: Disk, changes: seq<Change>, names: seq<Text>, stages: seq<Stage>, q: nat, m: nat)
    requires Separate(changes, names) && |stages| == |changes| && 0 < q <= m && Rollable(stages, m)
    requires Picture(d0, d, changes, names, Returning(d0, changes, stages, q, m))
    requires changes[q - 1].target in d0
    ensures var moved := Rename(d, names[q - 1], changes[q - 1].target);
      && (moved.Some? <==> CanReturn(d0, changes[q - 1], stages[q - 1]))
      && (moved.Some? ==> Picture(d0, moved.value, changes, names, Returning(d0, changes, stages, q - 1, m)))
  {
    ReturningOne(d0, changes, stages, q, m);
    ReturnOne(d0, d, changes, names, Returning(d0, changes, stages, q, m), q - 1);
  }

  lemma LastBackup(d: Disk, changes: seq<Change>, names: seq<Text>, q: nat)
    requires 0 < q <= |changes| == |names| && changes[q - 1].target in d
    ensures Backups(d, changes, names, q)
      == Backups(d, changes, names, q - 1) + [(changes[q - 1].target, names[q - 1])]
  {
  }

  /** One rename of the second roll-back loop. */
  lemma ReturnNext(
    d0: Disk, d: Disk, changes: seq<Change>, names: seq<Text>, stages: seq<Stage>, q: nat, m: nat,
    backups: seq<(Text, Text)>)
    requires Rolled(d0, d, changes, names, stages, q, m, backups) && q > 0 && changes[q - 1].target in d0
    ensures |backups| > 0 && backups[|backups| - 1] == (changes[q - 1].target, names[q - 1])
    ensures var moved := Rename(d, names[q - 1], changes[q - 1].target);
      if moved.Some? then Rolled(d0, moved.value, changes, names, stages, q - 1, m, backups[..|backups| - 1])
      else !AllCanReturn(d0, changes, stages, m) && Picture(d0, d, changes, names, stages)
  {
    LastBackup(d0, changes, names, q);
    assert backups[..|backups| - 1] == Backups(d0, changes, names, q - 1);
    ReturnOnDisk(d0, d, changes, names, stages, q, m);
    NothingRolled(d0, changes, stages, m);
  }

  /** One pass through the second roll-back loop: the rename, and the changes that had nothing to back up. */
  lemma ReturnStep(
    d0: Disk, d: Disk, changes: seq<Change>, names: seq<Text>, stages: seq<Stage>, q: nat, m: nat,
    backups: seq<(Text, Text)>)
    returns (r: nat)
    requires Rolled(d0, d, changes, names, stages, q, m, backups) && |backups| > 0
    requires q > 0 ==> changes[q - 1].target in d0
    ensures var (target, backup) := backups[|backups| - 1];
      var moved := Rename(d, backup, target);
      if moved.Some? then
        && Rolled(d0, moved.value, changes, names, stages, r, m, backups[..|backups| - 1])
        && (r > 0 ==> changes[r - 1].target in d0)
      else !AllCanReturn(d0, changes, stages, m) && Picture(d0, d, changes, names, stages)
  {
    ReturnNext(d0, d, changes, names, stages, q, m, backups);
    var moved := Rename(d, names[q - 1], changes[q - 1].target);
    r := q;
    if moved.Some? {
      r := SkipIdle(d0, moved.value, changes, names, stages, q - 1, m, backups[..|backups| - 1]);
    }
  }

  lemma AllReturned(d0: Disk, d: Disk, changes: seq<Change>, names: seq<Text>, stages: seq<Stage>, q: nat, m: nat)
    requires Rolled(d0, d, changes, names, stages, q, m, [])
    requires q > 0 ==> changes[q - 1].target in d0
    ensures AllCanReturn(d0, changes, stages, m)
    ensures Picture(d0, d, changes, names, Returning(d0, changes, stages, 0, m))
  {
  }

  /** `for target, backup in reversed(backups): backup.rename(target)`. */
  method ReturnBackups(
    ghost d0: Disk, d: Disk, ghost changes: seq<Change>, ghost names: seq<Text>, ghost stages: seq<Stage>,
    ghost m: nat, backups: seq<(Text, Text)>)
    returns (ok: bool, e: Disk)
    requires Separate(changes, names) && Picture(d0, d, changes, names, stages) && Rollable(stages, m)
    requires backups == Backups(d0, changes, names, m)
    ensures ok <==> AllCanReturn(d0, changes, stages, m)
    ensures ok ==> Picture(d0, e, changes, names, Returning(d0, changes, stages, 0, m))
    ensures !ok ==> Picture(d0, e, changes, names, stages)
  {
    e := d;
    var rest := backups;
    NothingRolled(d0, changes, stages, m);
    ghost var q: nat := SkipIdle(d0, e, changes, names, stages, m, m, rest);
    while |rest| > 0
      invariant Rolled(d0, e, changes, names, stages, q, m, rest)
      invariant q > 0 ==> changes[q - 1].target in d0
      decreases |rest|
    {
      q := ReturnStep(d0, e, changes, names, stages, q, m, rest);
      var (target, backup) := rest[|rest| - 1];
      var moved := Rename(e, backup, target);
      if moved.None? {
        return false, e;
      }
      e, rest := moved.value, rest[..|rest| - 1];
    }
    AllReturned(d0, e, changes, names, stages, q, m);
    ok := true;
  }

  // ----- The transaction

  /** The backup names on the list are those of the changes that had something to back up. */
  lemma {:induction false} ListedNames(d: Disk, changes: seq<Change>, names: seq<Text>, n: nat, name: Text)
    requires n <= |changes| == |names|
    ensures (exists b :: b in Backups(d, changes, names, n) && b.1 == name)
      <==> exists j :: 0 <= j < n && changes[j].target in d && names[j] == name
  {
    if n > 0 {
      ListedNames(d, changes, names, n - 1, name);
      var front := Backups(d, changes, names, n - 1);
      forall b | b in front ensures b in Backups(d, changes, names, n) {
      }
      if changes[n - 1].target in d {
        assert (changes[n - 1].target, names[n - 1]) in Backups(d, changes, names, n);
      }
    }
  }

  /** Dropping the listed backups, in whatever order, leaves every change installed. */
  lemma Discarded(d0: Disk, d: Disk, changes: seq<Change>, names: seq<Text>, gone: set<Text>)
    requires Separate(changes, names)
    requires Picture(d0, d, changes, names, Layout(|changes|, |changes|, Placed, Untouched))
    requires forall name ::
      name in gone <==> exists j :: 0 <= j < |changes| && changes[j].target in d0 && names[j] == name
    ensures Picture(d0, d - gone, changes, names, Layout(|changes|, |changes|, Installed, Untouched))
  {
    var placed := Layout(|changes|, |changes|, Placed, Untouched);
    var installed := Layout(|changes|, |changes|, Installed, Untouched);
    forall j | 0 <= j < |changes| ensures Holds(d0, d - gone, changes[j], names[j], installed[j]) {
      var c, name := changes[j], names[j];
      assert Holds(d0, d, c, name, placed[j]);
      assert Involves(c, name, c.target) && Involves(c, name, name);
      assert c.staged.Some? ==> Involves(c, name, c.staged.value);
      assert forall i | 0 <= i < |changes| :: Involves(changes[i], names[i], names[i]);
    }
    forall p | Elsewhere(changes, names, p)
      ensures Lookup(d - gone, p) == Lookup(d0, p)
    {
      assert forall i | 0 <= i < |changes| :: Involves(changes[i], names[i], names[i]);
    }
  }

  /** `for _, backup in backups: remove(backup)`. */
  method DiscardBackups(d: Disk, backups: seq<(Text, Text)>) returns (e: Disk, ghost gone: set<Text>)
    ensures e == d - gone
    ensures forall name :: name in gone <==> exists b :: b in backups && b.1 == name
  {
    e, gone := d, {};
    var i := 0;
    while i < |backups|
      invariant i <= |backups| && e == d - gone
      invariant forall name :: name in gone <==> exists b :: b in backups[..i] && b.1 == name
    {
      assert backups[..i + 1] == backups[..i] + [backups[i]];
      e, gone, i := e - {backups[i].1}, gone + {backups[i].1}, i + 1;
    }
    assert backups[..i] == backups;
  }

  /** A target is as it was before, and nothing is left under its backup name. */
  predicate AsBefore(d0: Disk, d: Disk, c: Change, name: Text) {
    Lookup(d, c.target) == Lookup(d0, c.target) && name !in d
  }

  ghost predicate AllAsBefore(d0: Disk, d: Disk, changes: seq<Change>, names: seq<Text>)
    requires |changes| == |names|
  {
    forall j | 0 <= j < |changes| :: AsBefore(d0, d, changes[j], names[j])
  }

  lemma SettledIsAsBefore(d0: Disk, d: Disk, c: Change, name: Text, stage: Stage)
    requires Holds(d0, d, c, name, stage) && (stage == Untouched || stage == Restored)
    ensures AsBefore(d0, d, c, name)
  {
  }

  /** Undoing: the completed targets are removed, then the backups return. */
  method RollBack(
    ghost d0: Disk, d: Disk, ghost changes: seq<Change>, ghost names: seq<Text>, ghost n: nat, ghost m: nat,
    ghost here: Stage, backups: seq<(Text, Text)>, completed: seq<Text>)
    returns (e: Disk, ghost stages: seq<Stage>)
    requires Separate(changes, names) && n <= m <= n + 1 && m <= |changes|
    requires m == n + 1 ==> here == Moved || here == Placed
    requires Picture(d0, d, changes, names, Layout(|changes|, n, Placed, here))
    requires backups == Backups(d0, changes, names, m) && completed == Targets(changes, n)
    ensures Picture(d0, e, changes, names, stages)
    ensures var cleared := Layout(|changes|, n, Cleared, here);
      stages == if AllCanReturn(d0, changes, cleared, m) then Returning(d0, changes, cleared, 0, m) else cleared
  {
    var removed := RemoveCompleted(d0, d, changes, names, here, completed);
    stages := Layout(|changes|, n, Cleared, here);
    var ok;
    ok, e := ReturnBackups(d0, removed, changes, names, stages, m, backups);
    if ok {
      stages := Returning(d0, changes, stages, 0, m);
    }
  }

  /** Which roll-backs bring everything back, and that the others do not. */
  lemma Verdict(d0: Disk, d: Disk, changes: seq<Change>, names: seq<Text>, cause: Stop, stages: seq<Stage>)
    requires Separate(changes, names) && cause.During? && cause.change < |changes|
    requires Fresh(d0, names) && (cause.point == AfterPlace ==> Present(d0, changes[cause.change]))
    requires Picture(d0, d, changes, names, stages)
    requires var n, here := cause.change, StageAt(cause.point);
      var m := n + if IsRecorded(cause.point) then 1 else 0;
      var cleared := Layout(|changes|, n, Cleared, here);
      stages == if AllCanReturn(d0, changes, cleared, m) then Returning(d0, changes, cleared, 0, m) else cleared
    ensures AllAsBefore(d0, d, changes, names) <==> Recoverable(d0, changes, cause)
  {
    var n := cause.change;
    var c, name := changes[n], names[n];
    assert Holds(d0, d, c, name, stages[n]);
    if Recoverable(d0, changes, cause) {
      forall j | 0 <= j < |changes| ensures AsBefore(d0, d, changes[j], names[j]) {
        assert Holds(d0, d, changes[j], names[j], stages[j]);
        if j != n {
          SettledIsAsBefore(d0, d, changes[j], names[j], stages[j]);
        }
      }
    } else {
      assert !AsBefore(d0, d, c, name);
    }
  }

  /** After a failing final check everything is in place and recorded, so everything comes back. */
  lemma VerdictAtCheck(d0: Disk, d: Disk, changes: seq<Change>, names: seq<Text>, stages: seq<Stage>)
    requires Separate(changes, names) && Picture(d0, d, changes, names, stages)
    requires var cleared := Layout(|changes|, |changes|, Cleared, Untouched);
      stages == if AllCanReturn(d0, changes, cleared, |changes|)
                then Returning(d0, changes, cleared, 0, |changes|) else cleared
    ensures AllAsBefore(d0, d, changes, names)
  {
    forall j | 0 <= j < |changes| ensures AsBefore(d0, d, changes[j], names[j]) {
      SettledIsAsBefore(d0, d, changes[j], names[j], stages[j]);
    }
  }

  /** What is left to do when the check has passed. */
  method Finish(ghost d0: Disk, d: Disk, ghost changes: seq<Change>, ghost names: seq<Text>, backups: seq<(Text, Text)>)
    returns (e: Disk)
    requires Separate(changes, names) && backups == Backups(d0, changes, names, |changes|)
    requires Picture(d0, d, changes, names, Layout(|changes|, |changes|, Placed, Untouched))
    ensures Picture(d0, e, changes, names, Layout(|changes|, |changes|, Installed, Untouched))
  {
    ghost var gone;
    e, gone := DiscardBackups(d, backups);
    forall name
      ensures name in gone <==> exists j :: 0 <= j < |changes| && changes[j].target in d0 && names[j] == name
    {
      ListedNames(d0, changes, names, |changes|, name);
    }
    Discarded(d0, d, changes, names, gone);
  }

  /**
   replace_transaction. It commits exactly when nothing stops it, with every payload in place and no backup
   left. After any other end every target is as before exactly when the stop is a recoverable one.
   */
  method ReplaceTransaction(d0: Disk, changes: seq<Change>, names: seq<Text>, stop: Stop)
    returns (committed: bool, d: Disk, ghost stages: seq<Stage>)
    requires Separate(changes, names) && Fresh(d0, names)
    requires stop.During? ==> stop.change < |changes|
    ensures Picture(d0, d, changes, names, stages)
    ensures committed <==> Cause(d0, changes, stop) == Never
    ensures committed ==> stages == Layout(|changes|, |changes|, Installed, Untouched)
    ensures !committed ==> (AllAsBefore(d0, d, changes, names) <==> Recoverable(d0, changes, Cause(d0, changes, stop)))
  {
    ghost var cause := Cause(d0, changes, stop);
    var raised, backups, completed;
    raised, d, backups, completed := Forward(d0, changes, names, stop);
    if raised {
      d, stages := RollBack(
        d0, d, changes, names, cause.change, cause.change + if IsRecorded(cause.point) then 1 else 0,
        StageAt(cause.point), backups, completed);
      Verdict(d0, d, changes, names, cause, stages);
      return false, d, stages;
    }
    if stop == AtCheck {
      d, stages := RollBack(d0, d, changes, names, |changes|, |changes|, Untouched, backups, completed);
      VerdictAtCheck(d0, d, changes, names, stages);
      return false, d, stages;
    }
    d := Finish(d0, d, changes, names, backups);
    stages := Layout(|changes|, |changes|, Installed, Untouched);
    committed := true;
  }

  /** What a committed run means for one change. */
  lemma CommittedIsInstalled(d0: Disk, d: Disk, changes: seq<Change>, names: seq<Text>, j: nat)
    requires Picture(d0, d, changes, names, Layout(|changes|, |changes|, Installed, Untouched)) && j < |changes|
    ensures names[j] !in d
    ensures changes[j].staged.None? ==> changes[j].target !in d
    ensures changes[j].staged.Some? ==>
      changes[j].staged.value !in d && Lookup(d, changes[j].target) == Lookup(d0, changes[j].staged.value)
  {
    assert Holds(d0, d, changes[j], names[j], Layout(|changes|, |changes|, Installed, Untouched)[j]);
  }
}
