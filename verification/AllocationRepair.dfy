/**
 Schema versions 21 to 23 of build_allocation: version 22 lets an allocation name the requirement it serves
 and leaves old rows without one; version 23 links every old row that has exactly one possible owner.
 */
module AllocationRepair {
  import opened Wrappers
  import opened Counting

  datatype Requirement = Requirement(
    build: int, part: int, color: int, substitutePart: Option<int>, substituteColor: Option<int>, spare: bool)
  type Requirements = map<int, Requirement>

  datatype Allocation = Allocation(
    build: int, requirement: Option<int>, inventory: int, part: int, color: int, location: int, quantity: int)
  type Allocations = map<int, Allocation>

  /** UNIQUE(build_requirement_id, inventory_record_id); rows without a requirement never collide. */
  predicate Collide(a: Allocation, b: Allocation) {
    a.requirement.Some? && a.requirement == b.requirement && a.inventory == b.inventory
  }

  ghost predicate Unique(t: Allocations) {
    forall i, j | i in t && j in t && i != j :: !Collide(t[i], t[j])
  }

  predicate Legacy(a: Allocation) {
    a.requirement.None? || a.requirement.value <= 0
  }

  /** Old rows are unique per build and inventory record. */
  ghost predicate LegacyUnique(t: Allocations) {
    forall i, j | i in t && j in t && i != j && Legacy(t[i]) && Legacy(t[j]) ::
      t[i].build != t[j].build || t[i].inventory != t[j].inventory
  }

  /** Row ids of build_requirement come from AUTOINCREMENT. */
  ghost predicate IdsPositive(reqs: Requirements) {
    forall r | r in reqs :: r > 0
  }

  // ----- Version 22

  /** The rows as version 22 copies them: nobody owns them yet. */
  function Version22(t: Allocations): Allocations {
    map i | i in t :: t[i].(requirement := None)
  }

  /** UNIQUE(build_id, inventory_record_id), the rule of the older schema. */
  ghost predicate UniquePerBuild(t: Allocations) {
    forall i, j | i in t && j in t && i != j :: t[i].build != t[j].build || t[i].inventory != t[j].inventory
  }

  /** The older rule is what makes the version 23 repair safe. */
  lemma Version22CarriesUniqueness(t: Allocations)
    requires UniquePerBuild(t)
    ensures Unique(Version22(t)) && LegacyUnique(Version22(t))
  {
    var u := Version22(t);
    forall i, j | i in u && j in u && i != j ensures u[i].build != u[j].build || u[i].inventory != u[j].inventory {
      assert i in t && j in t;
    }
  }

  /** What the allocation repository does to the table while version 22 is current. */
  datatype Write = Put(id: int, row: Allocation) | Remove(id: int)

  ghost function Written(t: Allocations, w: Write): Allocations {
    match w
    case Put(id, row) => t[id := row]
    case Remove(id) => t - {id}
  }

  /** The UNIQUE rule lets the write through. */
  ghost predicate LetThrough(t: Allocations, w: Write) {
    w.Put? ==> forall j | j in t && j != w.id :: !Collide(t[j], w.row)
  }

  /** Two ownerless rows that any requirement fits alike. */
  ghost predicate Alike(a: Allocation, b: Allocation) {
    && Legacy(a) && Legacy(b)
    && a.build == b.build && a.inventory == b.inventory && a.part == b.part && a.color == b.color
  }

  ghost predicate OwnerlessDiffer(t: Allocations) {
    forall i, j | i in t && j in t && i != j :: !Alike(t[i], t[j])
  }

  /** A write for a requirement, an update that leaves an ownerless row what it is about, or a removal. */
  ghost predicate Ordinary(t: Allocations, w: Write) {
    w.Put? ==> !Legacy(w.row) || (w.id in t && Alike(t[w.id], w.row))
  }

  lemma WriteKeepsRules(t: Allocations, w: Write)
    requires Unique(t) && LetThrough(t, w)
    ensures Unique(Written(t, w))
    ensures OwnerlessDiffer(t) && Ordinary(t, w) ==> OwnerlessDiffer(Written(t, w))
  {
    var u := Written(t, w);
    forall j, k | j in u && k in u && j != k ensures !Collide(u[j], u[k]) {
      if !(w.Put? && (j == w.id || k == w.id)) {
        assert !Collide(t[j], t[k]);
      }
    }
    if OwnerlessDiffer(t) && Ordinary(t, w) {
      forall j, k | j in u && k in u && j != k ensures !Alike(u[j], u[k]) {
        if j in t && k in t {
          assert !Alike(t[j], t[k]);
        }
      }
    }
  }

  // ----- Version 23

  /** The requirement's current effective identity is the allocation's part and colour, in the same build. */
  predicate Fits(q: Requirement, a: Allocation) {
    && q.build == a.build
    && !q.spare
    && (if q.substitutePart.Some? then q.substitutePart.value else q.part) == a.part
    && (if q.substituteColor.Some? then q.substituteColor.value else q.color) == a.color
  }

  function Matches(reqs: Requirements, a: Allocation): set<int> {
    set r | r in reqs && Fits(reqs[r], a)
  }

  function Only(s: set<int>): (x: int)
    requires |s| == 1
    ensures x in s && s == {x}
  {
    assert forall x, y | x in s && y in s :: x == y by {
      forall x, y | x in s && y in s ensures x == y {
        OneElement(s, x, y);
      }
    }
    assert exists x :: x in s by {
      var some := Any(s);
    }
    var x :| x in s;
    OneElement(s, x, x);
    x
  }

  lemma OneElement(s: set<int>, x: int, y: int)
    requires |s| == 1 && x in s && y in s
    ensures x == y && s == {x}
  {
    if exists z :: z in s && z != x {
      var z :| z in s && z != x;
      assert |{x, z}| == 2 && {x, z} <= s;
      SubsetSize({x, z}, s);
    }
  }

  lemma SubsetSize(a: set<int>, b: set<int>)
    requires a <= b
    ensures |a| <= |b|
  {
    assert b == a + (b - a);
  }

  /** Exactly one requirement could own this old row. */
  predicate Repairable(reqs: Requirements, a: Allocation) {
    Legacy(a) && |Matches(reqs, a)| == 1
  }

  predicate HasTwin(reqs: Requirements, t: Allocations, a: Allocation)
    requires Repairable(reqs, a)
  {
    exists j | j in t :: t[j].requirement == Some(Only(Matches(reqs, a))) && t[j].inventory == a.inventory
  }

  /** The WHERE clause of the DELETE. */
  predicate Superseded(reqs: Requirements, t: Allocations, a: Allocation) {
    Repairable(reqs, a) && HasTwin(reqs, t, a)
  }

  function Linked(reqs: Requirements, a: Allocation): Allocation {
    if Repairable(reqs, a) then a.(requirement := Some(Only(Matches(reqs, a)))) else a
  }

  /** What the repair is meant to leave. */
  ghost function Repaired(reqs: Requirements, t: Allocations): Allocations {
    map i | i in t && !Superseded(reqs, t, t[i]) :: Linked(reqs, t[i])
  }

  datatype Counts = Counts(
    legacy: int, ambiguous: int, unmatched: int, superseded: int, removed: int, repairable: int, repaired: int)

  // ----- The DELETE

  /** The table once the rows in `seen` have been through the DELETE. */
  ghost function Swept(reqs: Requirements, t: Allocations, seen: set<int>): Allocations {
    map i | i in t && !(i in seen && Superseded(reqs, t, t[i])) :: t[i]
  }

  /** Deleting old rows never takes away the linked twin another old row is compared with. */
  lemma SweptTwins(reqs: Requirements, t: Allocations, seen: set<int>, a: Allocation)
    requires IdsPositive(reqs)
    ensures Superseded(reqs, Swept(reqs, t, seen), a) <==> Superseded(reqs, t, a)
  {
    if Superseded(reqs, t, a) {
      var r := Only(Matches(reqs, a));
      var j :| j in t && t[j].requirement == Some(r) && t[j].inventory == a.inventory;
      assert r in reqs && !Legacy(t[j]);
      assert j in Swept(reqs, t, seen);
    }
  }

  ghost function SupersededRows(reqs: Requirements, t: Allocations, seen: set<int>): set<int> {
    set i | i in t && i in seen && Superseded(reqs, t, t[i])
  }

  lemma SweepStep(reqs: Requirements, t: Allocations, seen: set<int>, i: int)
    requires i in t && i !in seen
    ensures var now := Swept(reqs, t, seen);
      && i in now && now[i] == t[i]
      && Swept(reqs, t, seen + {i}) == (if Superseded(reqs, t, t[i]) then now - {i} else now)
  {
    var now, gone := Swept(reqs, t, seen), Superseded(reqs, t, t[i]);
    assert Swept(reqs, t, seen + {i}) == if gone then now - {i} else now;
  }

  lemma CountStep(reqs: Requirements, t: Allocations, seen: set<int>, i: int)
    requires i in t && i !in seen
    ensures |SupersededRows(reqs, t, seen + {i})| ==
      |SupersededRows(reqs, t, seen)| + if Superseded(reqs, t, t[i]) then 1 else 0
  {
    var rows, gone := SupersededRows(reqs, t, seen), Superseded(reqs, t, t[i]);
    assert SupersededRows(reqs, t, seen + {i}) == if gone then rows + {i} else rows;
  }

  lemma NothingSwept(reqs: Requirements, t: Allocations)
    ensures Swept(reqs, t, {}) == t && SupersededRows(reqs, t, {}) == {}
  {
  }

  /** The DELETE, row by row against the table as it shrinks. */
  method DeleteSuperseded(reqs: Requirements, t: Allocations) returns (now: Allocations, removed: int)
    requires IdsPositive(reqs)
    ensures now == Swept(reqs, t, t.Keys)
    ensures removed == |SupersededRows(reqs, t, t.Keys)|
  {
    now, removed := t, 0;
    var pending := t.Keys;
    NothingTaken(t.Keys);
    NothingSwept(reqs, t);
    while pending != {}
      invariant pending <= t.Keys
      invariant now == Swept(reqs, t, t.Keys - pending)
      invariant removed == |SupersededRows(reqs, t, t.Keys - pending)|
      decreases pending
    {
      ghost var some := Any(pending);
      var i :| i in pending;
      TakeOne(t.Keys, pending, i);
      SweepStep(reqs, t, t.Keys - pending, i);
      CountStep(reqs, t, t.Keys - pending, i);
      SweptTwins(reqs, t, t.Keys - pending, t[i]);
      if Superseded(reqs, now, now[i]) {
        now, removed := now - {i}, removed + 1;
      }
      pending := pending - {i};
    }
    NothingTaken(t.Keys);
  }

  // ----- The UPDATE

  /** The table once the rows in `seen` have been through the UPDATE. */
  ghost function Relinked(reqs: Requirements, t: Allocations, seen: set<int>): Allocations {
    map i | i in t :: if i in seen then Linked(reqs, t[i]) else t[i]
  }

  ghost function RepairableRows(reqs: Requirements, t: Allocations, seen: set<int>): set<int> {
    set i | i in t && i in seen && Repairable(reqs, t[i])
  }

  lemma RelinkStep(reqs: Requirements, t: Allocations, seen: set<int>, i: int)
    requires i in t && i !in seen
    ensures var now := Relinked(reqs, t, seen);
      && now[i] == t[i]
      && Relinked(reqs, t, seen + {i}) == now[i := Linked(reqs, t[i])]
      && (!Repairable(reqs, t[i]) ==> Relinked(reqs, t, seen + {i}) == now)
    ensures |RepairableRows(reqs, t, seen + {i})| ==
      |RepairableRows(reqs, t, seen)| + if Repairable(reqs, t[i]) then 1 else 0
  {
    var now := Relinked(reqs, t, seen);
    assert Relinked(reqs, t, seen + {i}) == now[i := Linked(reqs, t[i])];
    if Repairable(reqs, t[i]) {
      assert RepairableRows(reqs, t, seen + {i}) == RepairableRows(reqs, t, seen) + {i};
    } else {
      assert Relinked(reqs, t, seen + {i}) == now;
      assert RepairableRows(reqs, t, seen + {i}) == RepairableRows(reqs, t, seen);
    }
  }

  lemma NothingRelinked(reqs: Requirements, t: Allocations)
    ensures Relinked(reqs, t, {}) == t && RepairableRows(reqs, t, {}) == {}
  {
  }

  /** No two rows of the table would end up with one requirement and one inventory record. */
  ghost predicate NoContention(reqs: Requirements, t: Allocations) {
    forall i, j | i in t && j in t && i != j && Repairable(reqs, t[i]) && Repairable(reqs, t[j]) ::
      !Collide(Linked(reqs, t[i]), Linked(reqs, t[j]))
  }

  /** No old row still has a linked twin. */
  ghost predicate NoTwins(reqs: Requirements, t: Allocations) {
    forall i | i in t :: !Superseded(reqs, t, t[i])
  }

  /** The statement stops at row `i` only if `i` contends with a row it has already linked. */
  lemma RefusedOnlyByContention(reqs: Requirements, t: Allocations, seen: set<int>, i: int, j: int)
    requires NoTwins(reqs, t) && i in t && j in t && i !in seen && i != j && Repairable(reqs, t[i])
    requires Collide(Relinked(reqs, t, seen)[j], Linked(reqs, t[i]))
    ensures !NoContention(reqs, t)
  {
    assert !HasTwin(reqs, t, t[i]) by {
      assert !Superseded(reqs, t, t[i]);
    }
  }

  /** The UPDATE, row by row, each row tested against UNIQUE before it is written. */
  method LinkRepairable(reqs: Requirements, t: Allocations) returns (ok: bool, now: Allocations, repaired: int)
    requires Unique(t) && NoTwins(reqs, t)
    ensures ok <==> NoContention(reqs, t)
    ensures ok ==> now == Relinked(reqs, t, t.Keys) && Unique(now)
    ensures ok ==> repaired == |RepairableRows(reqs, t, t.Keys)|
  {
    now, repaired := t, 0;
    var pending := t.Keys;
    NothingTaken(t.Keys);
    NothingRelinked(reqs, t);
    while pending != {}
      invariant pending <= t.Keys
      invariant now == Relinked(reqs, t, t.Keys - pending) && Unique(now)
      invariant repaired == |RepairableRows(reqs, t, t.Keys - pending)|
      decreases pending
    {
      ghost var some := Any(pending);
      var i :| i in pending;
      TakeOne(t.Keys, pending, i);
      RelinkStep(reqs, t, t.Keys - pending, i);
      if Repairable(reqs, now[i]) {
        var row := Linked(reqs, now[i]);
        if exists j | j in now :: j != i && Collide(now[j], row) {
          ghost var j :| j in now && j != i && Collide(now[j], row);
          RefusedOnlyByContention(reqs, t, t.Keys - pending, i, j);
          return false, now, repaired;
        }
        UniqueStep(now, i, row);
        now, repaired := now[i := row], repaired + 1;
      }
      pending := pending - {i};
    }
    NothingTaken(t.Keys);
    UniqueMeansNoContention(reqs, t);
    ok := true;
  }

  lemma UniqueStep(t: Allocations, i: int, row: Allocation)
    requires Unique(t) && i in t && forall j | j in t && j != i :: !Collide(t[j], row)
    ensures Unique(t[i := row])
  {
    var u := t[i := row];
    forall j, k | j in u && k in u && j != k ensures !Collide(u[j], u[k]) {
      assert j != i && k != i ==> !Collide(t[j], t[k]);
    }
  }

  lemma UniqueMeansNoContention(reqs: Requirements, t: Allocations)
    requires Unique(Relinked(reqs, t, t.Keys))
    ensures NoContention(reqs, t)
  {
    var u := Relinked(reqs, t, t.Keys);
    forall i, j | i in t && j in t && i != j && Repairable(reqs, t[i]) && Repairable(reqs, t[j])
      ensures !Collide(Linked(reqs, t[i]), Linked(reqs, t[j]))
    {
      assert !Collide(u[i], u[j]);
    }
  }

  // ----- The migration

  function LegacyRows(t: Allocations): set<int> {
    set i | i in t && Legacy(t[i])
  }

  function AmbiguousRows(reqs: Requirements, t: Allocations): set<int> {
    set i | i in t && Legacy(t[i]) && |Matches(reqs, t[i])| > 1
  }

  function UnmatchedRows(reqs: Requirements, t: Allocations): set<int> {
    set i | i in t && Legacy(t[i]) && |Matches(reqs, t[i])| == 0
  }

  function StaleRows(reqs: Requirements, t: Allocations): set<int> {
    set i | i in t && Superseded(reqs, t, t[i])
  }

  function LinkableRows(reqs: Requirements, t: Allocations): set<int> {
    set i | i in t && Repairable(reqs, t[i])
  }

  /** The rows still without an owner, once stale duplicates are out, that have exactly one possible owner. */
  ghost function Remaining(reqs: Requirements, t: Allocations): Allocations {
    Swept(reqs, t, t.Keys)
  }

  lemma SweptHasNoTwins(reqs: Requirements, t: Allocations)
    requires IdsPositive(reqs)
    ensures NoTwins(reqs, Remaining(reqs, t)) && (Unique(t) ==> Unique(Remaining(reqs, t)))
  {
    var left := Remaining(reqs, t);
    forall i | i in left ensures !Superseded(reqs, left, left[i]) {
      SweptTwins(reqs, t, t.Keys, t[i]);
    }
    if Unique(t) {
      forall i, j | i in left && j in left && i != j ensures !Collide(left[i], left[j]) {
        assert !Collide(t[i], t[j]);
      }
    }
  }

  lemma SweptThenLinkedIsRepaired(reqs: Requirements, t: Allocations)
    ensures Relinked(reqs, Remaining(reqs, t), Remaining(reqs, t).Keys) == Repaired(reqs, t)
  {
  }

  /** Every old row is a stale duplicate, or linked, or ambiguous, or unmatched, and only one of these. */
  lemma LegacyRowsSplit(reqs: Requirements, t: Allocations)
    ensures var left := Remaining(reqs, t);
      |LegacyRows(t)| == |SupersededRows(reqs, t, t.Keys)| + |RepairableRows(reqs, left, left.Keys)|
        + |AmbiguousRows(reqs, t)| + |UnmatchedRows(reqs, t)|
  {
    var left := Remaining(reqs, t);
    var stale, linked := SupersededRows(reqs, t, t.Keys), RepairableRows(reqs, left, left.Keys);
    var unresolved := AmbiguousRows(reqs, t) + UnmatchedRows(reqs, t);
    assert AmbiguousRows(reqs, t) !! UnmatchedRows(reqs, t);
    forall i
      ensures i in LegacyRows(t) <==> i in stale || i in linked || i in unresolved
      ensures !(i in stale && i in linked) && !(i in stale && i in unresolved) && !(i in linked && i in unresolved)
    {
      SplitOne(reqs, t, i);
    }
    SizeOfThree(LegacyRows(t), stale, linked, unresolved);
  }

  lemma SplitOne(reqs: Requirements, t: Allocations, i: int)
    ensures var left := Remaining(reqs, t);
      var stale, linked := SupersededRows(reqs, t, t.Keys), RepairableRows(reqs, left, left.Keys);
      var unresolved := AmbiguousRows(reqs, t) + UnmatchedRows(reqs, t);
      && (i in LegacyRows(t) <==> i in stale || i in linked || i in unresolved)
      && !(i in stale && i in linked) && !(i in stale && i in unresolved) && !(i in linked && i in unresolved)
  {
    if i in t && Legacy(t[i]) {
      assert |Matches(reqs, t[i])| == 0 || |Matches(reqs, t[i])| == 1 || |Matches(reqs, t[i])| > 1;
    }
  }

  // ----- The same over the fields of the tables

  /** No requirement owns the allocation. */
  ghost predicate Ownerless(a: Allocation) {
    a.requirement == None || a.requirement.value <= 0
  }

  /** A regular requirement of the build that asks for the part and colour, its substitutes first. */
  ghost predicate CouldOwn(q: Requirement, a: Allocation) {
    && q.build == a.build && !q.spare
    && (q.substitutePart == Some(a.part) || (q.substitutePart == None && q.part == a.part))
    && (q.substituteColor == Some(a.color) || (q.substituteColor == None && q.color == a.color))
  }

  ghost predicate NoOwner(reqs: Requirements, a: Allocation) {
    forall r | r in reqs :: !CouldOwn(reqs[r], a)
  }

  ghost predicate OnlyOwner(reqs: Requirements, a: Allocation, r: int) {
    r in reqs && CouldOwn(reqs[r], a) && forall q | q in reqs && CouldOwn(reqs[q], a) :: q == r
  }

  ghost predicate SeveralOwners(reqs: Requirements, a: Allocation) {
    exists r, q :: r in reqs && q in reqs && r != q && CouldOwn(reqs[r], a) && CouldOwn(reqs[q], a)
  }

  /** A row that the requirement owns already takes from the stock record. */
  ghost predicate TakesFrom(t: Allocations, r: int, inventory: int) {
    exists j :: j in t && t[j].requirement == Some(r) && t[j].inventory == inventory
  }

  lemma OwnersByFields(reqs: Requirements, a: Allocation)
    ensures Legacy(a) <==> Ownerless(a)
    ensures |Matches(reqs, a)| == 0 <==> NoOwner(reqs, a)
    ensures |Matches(reqs, a)| == 1 <==> exists r :: OnlyOwner(reqs, a, r)
    ensures |Matches(reqs, a)| == 1 ==> OnlyOwner(reqs, a, Only(Matches(reqs, a)))
    ensures |Matches(reqs, a)| > 1 <==> SeveralOwners(reqs, a)
  {
    var m := Matches(reqs, a);
    assert forall r :: r in m <==> r in reqs && CouldOwn(reqs[r], a);
    if |m| == 0 {
      assert m == {};
    } else if |m| == 1 {
      var r := Only(m);
      assert forall q :: q in reqs && CouldOwn(reqs[q], a) <==> q == r;
      assert OnlyOwner(reqs, a, r);
    } else {
      var r := Any(m);
      var rest := m - {r};
      assert |rest| > 0;
      var q := Any(rest);
      assert CouldOwn(reqs[r], a) && CouldOwn(reqs[q], a) && r != q;
    }
  }

  lemma OnlyOwnerIsOne(reqs: Requirements, a: Allocation, r: int)
    requires OnlyOwner(reqs, a, r)
    ensures |Matches(reqs, a)| == 1 && Only(Matches(reqs, a)) == r
  {
    OwnersByFields(reqs, a);
  }

  /**
   Row by row: an ownerless row with exactly one possible owner is linked to it, or deleted where the owner takes
   from the stock record already. Every other row stays as it is, and no row is added.
   */
  lemma RowByRow(reqs: Requirements, t: Allocations, i: int)
    requires i in t
    ensures var a, u := t[i], Repaired(reqs, t);
      && (forall r | Ownerless(a) && OnlyOwner(reqs, a, r) ::
            if TakesFrom(t, r, a.inventory) then i !in u else i in u && u[i] == a.(requirement := Some(r)))
      && (!Ownerless(a) || NoOwner(reqs, a) || SeveralOwners(reqs, a) ==> i in u && u[i] == a)
    ensures Repaired(reqs, t).Keys <= t.Keys
    ensures Ownerless(t[i]) ==>
      NoOwner(reqs, t[i]) || SeveralOwners(reqs, t[i]) || exists r :: OnlyOwner(reqs, t[i], r)
  {
    OwnersByFields(reqs, t[i]);
    forall r | Ownerless(t[i]) && OnlyOwner(reqs, t[i], r)
      ensures Superseded(reqs, t, t[i]) <==> TakesFrom(t, r, t[i].inventory)
      ensures Linked(reqs, t[i]) == t[i].(requirement := Some(r))
    {
      OnlyOwnerIsOne(reqs, t[i], r);
    }
  }

  /** Two ownerless rows have one only owner and one stock record, and nothing of the owner stands there yet. */
  ghost predicate Contend(reqs: Requirements, t: Allocations, i: int, j: int, r: int) {
    && i in t && j in t && i != j && Ownerless(t[i]) && Ownerless(t[j])
    && OnlyOwner(reqs, t[i], r) && OnlyOwner(reqs, t[j], r)
    && t[i].inventory == t[j].inventory && !TakesFrom(t, r, t[i].inventory)
  }

  /** When the repair is refused. */
  lemma ContentionByFields(reqs: Requirements, t: Allocations)
    ensures NoContention(reqs, Remaining(reqs, t)) <==> forall i, j, r :: !Contend(reqs, t, i, j, r)
  {
    var left := Remaining(reqs, t);
    forall i, j, r | Contend(reqs, t, i, j, r) ensures !NoContention(reqs, left) {
      OwnersByFields(reqs, t[i]);
      OwnersByFields(reqs, t[j]);
      OnlyOwnerIsOne(reqs, t[i], r);
      OnlyOwnerIsOne(reqs, t[j], r);
      assert i in left && j in left && Collide(Linked(reqs, left[i]), Linked(reqs, left[j]));
    }
    if !NoContention(reqs, left) {
      var i, j :| i in left && j in left && i != j && Repairable(reqs, left[i]) && Repairable(reqs, left[j])
        && Collide(Linked(reqs, left[i]), Linked(reqs, left[j]));
      OwnersByFields(reqs, t[i]);
      OwnersByFields(reqs, t[j]);
      assert Contend(reqs, t, i, j, Only(Matches(reqs, t[i])));
    }
  }

  ghost function OwnerlessRows(t: Allocations): set<int> {
    set i | i in t && Ownerless(t[i])
  }

  ghost function RowsOfSeveral(reqs: Requirements, t: Allocations): set<int> {
    set i | i in t && Ownerless(t[i]) && SeveralOwners(reqs, t[i])
  }

  ghost function RowsOfNone(reqs: Requirements, t: Allocations): set<int> {
    set i | i in t && Ownerless(t[i]) && NoOwner(reqs, t[i])
  }

  /** Rows that stand in both tables and differ. */
  ghost function ChangedRows(t: Allocations, u: Allocations): set<int> {
    set i | i in t && i in u && u[i] != t[i]
  }

  lemma ClassesByFields(reqs: Requirements, t: Allocations)
    ensures LegacyRows(t) == OwnerlessRows(t)
    ensures AmbiguousRows(reqs, t) == RowsOfSeveral(reqs, t) && UnmatchedRows(reqs, t) == RowsOfNone(reqs, t)
  {
    forall i | i in t
      ensures Legacy(t[i]) <==> Ownerless(t[i])
      ensures |Matches(reqs, t[i])| == 0 <==> NoOwner(reqs, t[i])
      ensures |Matches(reqs, t[i])| > 1 <==> SeveralOwners(reqs, t[i])
    {
      OwnersByFields(reqs, t[i]);
    }
  }

  lemma ChangesByFields(reqs: Requirements, t: Allocations)
    requires IdsPositive(reqs)
    ensures var left, u := Remaining(reqs, t), Repaired(reqs, t);
      && SupersededRows(reqs, t, t.Keys) == t.Keys - u.Keys
      && RepairableRows(reqs, left, left.Keys) == ChangedRows(t, u)
  {
    var left, u := Remaining(reqs, t), Repaired(reqs, t);
    assert u.Keys == left.Keys;
    forall i ensures i in RepairableRows(reqs, left, left.Keys) <==> i in ChangedRows(t, u) {
      if i in left && Repairable(reqs, t[i]) {
        var r := Only(Matches(reqs, t[i]));
        assert r in Matches(reqs, t[i]) && r > 0 && u[i].requirement == Some(r);
      }
    }
  }

  lemma CountsByFields(reqs: Requirements, t: Allocations)
    requires IdsPositive(reqs)
    ensures |LegacyRows(t)| == |OwnerlessRows(t)|
    ensures |AmbiguousRows(reqs, t)| == |RowsOfSeveral(reqs, t)|
    ensures |UnmatchedRows(reqs, t)| == |RowsOfNone(reqs, t)|
    ensures |StaleRows(reqs, t)| == |SupersededRows(reqs, t, t.Keys)| == |t.Keys - Repaired(reqs, t).Keys|
    ensures var left := Remaining(reqs, t);
      |LinkableRows(reqs, left)| == |RepairableRows(reqs, left, left.Keys)| == |ChangedRows(t, Repaired(reqs, t))|
    ensures |OwnerlessRows(t)|
      == |StaleRows(reqs, t)| + |LinkableRows(reqs, Remaining(reqs, t))|
         + |RowsOfSeveral(reqs, t)| + |RowsOfNone(reqs, t)|
  {
    var left := Remaining(reqs, t);
    assert SupersededRows(reqs, t, t.Keys) == StaleRows(reqs, t);
    assert RepairableRows(reqs, left, left.Keys) == LinkableRows(reqs, left);
    LegacyRowsSplit(reqs, t);
    ClassesByFields(reqs, t);
    ChangesByFields(reqs, t);
  }

  /**
   migrateVersion22ToVersion23. `fault` says that some statement fails for a reason outside the data. The
   counters say how many rows were ownerless, had several possible owners or none, went, and changed.
   */
  method Migrate(reqs: Requirements, t: Allocations, fault: bool) returns (ok: bool, u: Allocations, c: Counts)
    requires IdsPositive(reqs) && Unique(t)
    ensures ok <==> !fault && forall i, j, r :: !Contend(reqs, t, i, j, r)
    ensures ok ==> u == Repaired(reqs, t) && Unique(u)
    ensures ok ==> c.legacy == |OwnerlessRows(t)| == c.superseded + c.repaired + c.ambiguous + c.unmatched
    ensures ok ==> c.ambiguous == |RowsOfSeveral(reqs, t)| && c.unmatched == |RowsOfNone(reqs, t)|
    ensures ok ==> c.removed == c.superseded == |t.Keys - u.Keys|
    ensures ok ==> c.repaired == c.repairable == |ChangedRows(t, u)|
  {
    c := Counts(|LegacyRows(t)|, |AmbiguousRows(reqs, t)|, |UnmatchedRows(reqs, t)|,
                |StaleRows(reqs, t)|, 0, 0, 0);
    if fault {
      return false, t, c;
    }
    var left, removed := DeleteSuperseded(reqs, t);
    SweptHasNoTwins(reqs, t);
    var repairable := |LinkableRows(reqs, left)|;
    var linked, now, repaired := LinkRepairable(reqs, left);
    c := c.(removed := removed, repairable := repairable, repaired := repaired);
    ContentionByFields(reqs, t);
    if !linked {
      return false, t, c;
    }
    SweptThenLinkedIsRepaired(reqs, t);
    CountsByFields(reqs, t);
    return true, now, c;
  }

  // ----- What the migration means

  /** Old rows that are unique per build and inventory record can always be repaired. */
  lemma LegacyUniqueIsEnough(reqs: Requirements, t: Allocations)
    requires LegacyUnique(t)
    ensures NoContention(reqs, Remaining(reqs, t))
  {
    var left := Remaining(reqs, t);
    forall i, j | i in left && j in left && i != j && Repairable(reqs, left[i]) && Repairable(reqs, left[j])
      ensures !Collide(Linked(reqs, left[i]), Linked(reqs, left[j]))
    {
      var r := Only(Matches(reqs, t[i]));
      assert t[i].build == reqs[r].build;
      if Only(Matches(reqs, t[j])) == r {
        assert t[j].build == reqs[r].build;
      }
    }
  }

  /** Linked rows name requirements that exist. */
  ghost predicate Refers(t: Allocations, reqs: Requirements) {
    forall i | i in t && !Legacy(t[i]) :: t[i].requirement.value in reqs
  }

  /** UNIQUE(build_id, part_id, color_id, is_spare). */
  ghost predicate RequirementsDiffer(reqs: Requirements) {
    forall r, q | r in reqs && q in reqs && r != q ::
      reqs[r].build != reqs[q].build || reqs[r].part != reqs[q].part
      || reqs[r].color != reqs[q].color || reqs[r].spare != reqs[q].spare
  }

  /** Whatever the schema lets the requirements be by then, the repair meets no contention. */
  ghost predicate AlwaysRepairable(t: Allocations) {
    forall reqs | IdsPositive(reqs) && RequirementsDiffer(reqs) && Refers(t, reqs) ::
      NoContention(reqs, Remaining(reqs, t))
  }

  lemma DifferentNeverContend(reqs: Requirements, t: Allocations)
    requires OwnerlessDiffer(t)
    ensures NoContention(reqs, Remaining(reqs, t))
  {
    var left := Remaining(reqs, t);
    forall i, j | i in left && j in left && i != j && Repairable(reqs, left[i]) && Repairable(reqs, left[j])
      ensures !Collide(Linked(reqs, left[i]), Linked(reqs, left[j]))
    {
      assert !Alike(t[i], t[j]);
      assert Only(Matches(reqs, t[i])) in Matches(reqs, t[i]) && Only(Matches(reqs, t[j])) in Matches(reqs, t[j]);
    }
  }

  /** The requirements linked rows name. */
  ghost function Named(t: Allocations): set<int> {
    set i | i in t && !Legacy(t[i]) :: t[i].requirement.value
  }

  lemma {:induction false} Above(some: set<int>) returns (m: nat)
    ensures m > 0 && forall x | x in some :: x < m
    decreases some
  {
    m := 1;
    if some != {} {
      var x := Any(some);
      var n := Above(some - {x});
      m := if x < n then n else x + 1;
      forall y | y in some ensures y < m {
        assert y == x || y in some - {x};
      }
    }
  }

  /** Two ownerless rows that are alike contend as soon as one requirement fits them. */
  lemma AlikeCanContend(t: Allocations, i: int, j: int)
    requires i in t && j in t && i != j && Alike(t[i], t[j])
    ensures !AlwaysRepairable(t)
  {
    var r := Above(Named(t));
    var wanted := Requirement(t[i].build, t[i].part, t[i].color, None, None, false);
    var reqs: Requirements := (map k | k in Named(t) :: Requirement(0, k, 0, None, None, true))[r := wanted];
    assert r !in Named(t);
    assert Matches(reqs, t[i]) == {r} && Matches(reqs, t[j]) == {r};
    forall k | k in t ensures t[k].requirement != Some(r) {
      assert !Legacy(t[k]) ==> t[k].requirement.value in Named(t);
    }
    var left := Remaining(reqs, t);
    assert !Superseded(reqs, t, t[i]) && !Superseded(reqs, t, t[j]);
    assert i in left && j in left && Collide(Linked(reqs, left[i]), Linked(reqs, left[j]));
    assert IdsPositive(reqs) && RequirementsDiffer(reqs) && Refers(t, reqs);
  }

  /** Exactly which tables can be repaired whatever the requirements are. */
  lemma RepairableExactly(t: Allocations)
    ensures AlwaysRepairable(t) <==> OwnerlessDiffer(t)
  {
    if OwnerlessDiffer(t) {
      forall reqs | IdsPositive(reqs) && RequirementsDiffer(reqs) && Refers(t, reqs)
        ensures NoContention(reqs, Remaining(reqs, t))
      {
        DifferentNeverContend(reqs, t);
      }
    } else {
      var i, j :| i in t && j in t && i != j && Alike(t[i], t[j]);
      AlikeCanContend(t, i, j);
    }
  }

  lemma {:induction false} RulesOverWrites(tables: seq<Allocations>, writes: seq<Write>, n: nat)
    requires n < |tables| == |writes| + 1 && Unique(tables[0]) && OwnerlessDiffer(tables[0])
    requires forall k | 0 <= k < |writes| ::
      && LetThrough(tables[k], writes[k]) && Ordinary(tables[k], writes[k])
      && tables[k + 1] == Written(tables[k], writes[k])
    ensures Unique(tables[n]) && OwnerlessDiffer(tables[n])
  {
    if n > 0 {
      RulesOverWrites(tables, writes, n - 1);
      assert tables[n - 1 + 1] == Written(tables[n - 1], writes[n - 1]);
      WriteKeepsRules(tables[n - 1], writes[n - 1]);
    }
  }

  /**
   From the older schema to the repaired table: the rows are copied, version 22 is used for any number of
   ordinary writes that its UNIQUE rule lets through, and then the repair meets no contention whatever the
   requirements are by then.
   */
  lemma UpgradeFrom21NeverCollides(old21: Allocations, tables: seq<Allocations>, writes: seq<Write>, reqs: Requirements)
    requires UniquePerBuild(old21) && |tables| == |writes| + 1 && tables[0] == Version22(old21) && IdsPositive(reqs)
    requires forall k | 0 <= k < |writes| ::
      && LetThrough(tables[k], writes[k]) && Ordinary(tables[k], writes[k])
      && tables[k + 1] == Written(tables[k], writes[k])
    ensures var t := tables[|writes|];
      Unique(t) && Unique(Repaired(reqs, t)) && forall i, j, r :: !Contend(reqs, t, i, j, r)
  {
    Version22CarriesUniqueness(old21);
    var t := tables[|writes|];
    assert OwnerlessDiffer(tables[0]) by {
      forall i, j | i in tables[0] && j in tables[0] && i != j ensures !Alike(tables[0][i], tables[0][j]) {
        assert i in old21 && j in old21;
      }
    }
    RulesOverWrites(tables, writes, |writes|);
    DifferentNeverContend(reqs, t);
    ContentionByFields(reqs, t);
    RepairedIsUnique(reqs, t);
  }

  /** Without contention the repaired table keeps the UNIQUE rule. */
  lemma RepairedIsUnique(reqs: Requirements, t: Allocations)
    requires IdsPositive(reqs) && Unique(t) && NoContention(reqs, Remaining(reqs, t))
    ensures Unique(Repaired(reqs, t))
  {
    var u, left := Repaired(reqs, t), Remaining(reqs, t);
    forall i, j | i in u && j in u && i != j ensures !Collide(u[i], u[j]) {
      assert i in left && j in left;
      if Repairable(reqs, t[i]) && Repairable(reqs, t[j]) {
        assert !Collide(Linked(reqs, left[i]), Linked(reqs, left[j]));
      } else if Repairable(reqs, t[i]) {
        assert !HasTwin(reqs, t, t[i]);
      } else if Repairable(reqs, t[j]) {
        assert !HasTwin(reqs, t, t[j]);
      } else {
        assert !Collide(t[i], t[j]);
      }
    }
  }

  /**
   Without that rule the repair can be impossible: two ownerless rows of one build holding the same stock
   record, both of which only one requirement can own.
   */
  lemma RepairCanBeImpossible()
    ensures exists reqs, t ::
      IdsPositive(reqs) && RequirementsDiffer(reqs) && Unique(t) && !NoContention(reqs, Remaining(reqs, t))
  {
    var q := Requirement(1, 10, 20, None, None, false);
    var a := Allocation(1, None, 5, 10, 20, 3, 1);
    var reqs: Requirements, t: Allocations := map[7 := q], map[1 := a, 2 := a];
    assert Matches(reqs, a) == {7};
    var left := Remaining(reqs, t);
    assert !Superseded(reqs, t, a);
    assert 1 in left && 2 in left && left[1] == a && left[2] == a;
    assert Collide(Linked(reqs, left[1]), Linked(reqs, left[2]));
    assert Unique(t);
  }

  /** A substitute decides, not the part it stands for. */
  lemma SubstituteOwns()
    ensures exists reqs: Requirements, t: Allocations ::
      && IdsPositive(reqs) && RequirementsDiffer(reqs) && Unique(t) && 1 in t && 2 in t
      && 7 in reqs && reqs[7].part == t[2].part && reqs[7].substitutePart == Some(t[1].part)
      && t[1].requirement == None && t[2].requirement == None
      && 1 in Repaired(reqs, t) && Repaired(reqs, t)[1].requirement == Some(7)
      && 2 in Repaired(reqs, t) && Repaired(reqs, t)[2].requirement == None
  {
    var q := Requirement(1, 100, 20, Some(200), None, false);
    var a, b := Allocation(1, None, 5, 200, 20, 3, 1), Allocation(1, None, 6, 100, 20, 3, 1);
    var reqs: Requirements, t: Allocations := map[7 := q], map[1 := a, 2 := b];
    assert OnlyOwner(reqs, a, 7);
    RowByRow(reqs, t, 1);
    assert NoOwner(reqs, b);
    RowByRow(reqs, t, 2);
    assert Repaired(reqs, t)[1].requirement == Some(7) && Repaired(reqs, t)[2].requirement == None;
  }

  /** Running the repair again finds nothing to do. */
  lemma SecondRunIsIdentity(reqs: Requirements, t: Allocations)
    requires IdsPositive(reqs)
    ensures Repaired(reqs, Repaired(reqs, t)) == Repaired(reqs, t)
  {
    var u := Repaired(reqs, t);
    forall i | i in u ensures !Repairable(reqs, u[i]) {
      if Repairable(reqs, t[i]) {
        assert Only(Matches(reqs, t[i])) in reqs;
      }
    }
    forall i | i in u ensures !Superseded(reqs, u, u[i]) && Linked(reqs, u[i]) == u[i] {}
    assert Repaired(reqs, u).Keys == u.Keys;
  }
}
