/**
 Stock as the inventory repository keeps it: records with a quantity, and a log of movements. A record is
 named by its position in the table. What the two writing operations do to totals and to the log is proved
 here; the importer builds on it.
 */
module InventoryStock {
  import opened Wrappers

  /** The part of the stock an import works on. */
  datatype Slot = Slot(workspace: int, storage: int, condition: Text, ownership: Text)

  datatype Key = Key(part: int, color: int)

  datatype Record = Record(slot: Slot, key: Key, maker: int, quantity: int)

  datatype Movement = Movement(slot: Slot, key: Key, change: int)

  datatype Stock = Stock(records: seq<Record>, movements: seq<Movement>)

  predicate Matches(r: Record, slot: Slot, key: Key) {
    r.slot == slot && r.key == key
  }

  /** All stock of one part and colour in one slot, whoever made it. */
  function Total(records: seq<Record>, slot: Slot, key: Key): int {
    if records == [] then 0
    else
      var r := records[|records| - 1];
      Total(records[..|records| - 1], slot, key) + if r.slot == slot && r.key == key then r.quantity else 0
  }

  /** The sum of the logged changes. */
  function Logged(movements: seq<Movement>, slot: Slot, key: Key): int {
    if movements == [] then 0
    else
      var m := movements[|movements| - 1];
      Logged(movements[..|movements| - 1], slot, key) + if m.slot == slot && m.key == key then m.change else 0
  }

  lemma TotalOfAppend(records: seq<Record>, r: Record, slot: Slot, key: Key)
    ensures Total(records + [r], slot, key)
      == Total(records, slot, key) + if Matches(r, slot, key) then r.quantity else 0
  {
    assert (records + [r])[..|records|] == records;
  }

  lemma {:induction false} TotalOfUpdate(records: seq<Record>, i: nat, q: int, slot: Slot, key: Key)
    requires i < |records|
    ensures Total(records[i := records[i].(quantity := q)], slot, key)
      == Total(records, slot, key) + if Matches(records[i], slot, key) then q - records[i].quantity else 0
  {
    var front, after := records[..|records| - 1], records[i := records[i].(quantity := q)];
    if i == |records| - 1 {
      assert after[..|records| - 1] == front;
    } else {
      assert after[..|records| - 1] == front[i := front[i].(quantity := q)];
      TotalOfUpdate(front, i, q, slot, key);
    }
  }

  lemma LoggedOfAppend(movements: seq<Movement>, m: Movement, slot: Slot, key: Key)
    ensures Logged(movements + [m], slot, key)
      == Logged(movements, slot, key) + if m.slot == slot && m.key == key then m.change else 0
  {
    assert (movements + [m])[..|movements|] == movements;
  }

  lemma {:induction false} NothingMatches(records: seq<Record>, slot: Slot, key: Key)
    requires forall i | 0 <= i < |records| :: !Matches(records[i], slot, key)
    ensures Total(records, slot, key) == 0
  {
    if records != [] {
      NothingMatches(records[..|records| - 1], slot, key);
    }
  }

  /** When one record holds the key, it is the total. */
  lemma {:induction false} OnlyOneMatches(records: seq<Record>, slot: Slot, key: Key, i: nat)
    requires i < |records| && Matches(records[i], slot, key)
    requires forall j | 0 <= j < |records| && Matches(records[j], slot, key) :: j == i
    ensures Total(records, slot, key) == records[i].quantity
  {
    var front := records[..|records| - 1];
    if i == |records| - 1 {
      NothingMatches(front, slot, key);
    } else {
      OnlyOneMatches(front, slot, key, i);
    }
  }

  // ----- Operations

  /** The record of one maker; the table has at most one. */
  function FindMaker(records: seq<Record>, slot: Slot, key: Key, maker: int): (r: Option<nat>)
    ensures r.Some? ==> r.value < |records| && Matches(records[r.value], slot, key) && records[r.value].maker == maker
    ensures r.None? ==> forall i | 0 <= i < |records| :: !(Matches(records[i], slot, key) && records[i].maker == maker)
  {
    if records == [] then None
    else
      var last := records[|records| - 1];
      if Matches(last, slot, key) && last.maker == maker then Some(|records| - 1)
      else FindMaker(records[..|records| - 1], slot, key, maker)
  }

  /** addOrIncreaseQuantityInCurrentTransaction, for a positive quantity. */
  function Increased(s: Stock, slot: Slot, key: Key, maker: int, quantity: int): Stock {
    var log := s.movements + [Movement(slot, key, quantity)];
    match FindMaker(s.records, slot, key, maker)
    case Some(i) => Stock(s.records[i := s.records[i].(quantity := s.records[i].quantity + quantity)], log)
    case None => Stock(s.records + [Record(slot, key, maker, quantity)], log)
  }

  /** setQuantityWithMovement: nothing is logged when nothing changes. */
  function WithQuantity(s: Stock, i: nat, quantity: int): Stock
    requires i < |s.records|
  {
    var r := s.records[i];
    if quantity == r.quantity then s
    else Stock(s.records[i := r.(quantity := quantity)], s.movements + [Movement(r.slot, r.key, quantity - r.quantity)])
  }

  /** `s` became `t` by a change of `change` at one key; records of other keys stay where and as they are. */
  ghost predicate ChangedAt(s: Stock, t: Stock, slot: Slot, key: Key, change: int) {
    && |s.records| <= |t.records|
    && (forall i | 0 <= i < |s.records| :: t.records[i] == s.records[i] || Matches(s.records[i], slot, key))
    && (forall i | 0 <= i < |s.records| :: t.records[i] == s.records[i].(quantity := t.records[i].quantity))
    && (forall i | |s.records| <= i < |t.records| :: Matches(t.records[i], slot, key))
    && forall sl, k ::
         var c := if sl == slot && k == key then change else 0;
         && Total(t.records, sl, k) == Total(s.records, sl, k) + c
         && Logged(t.movements, sl, k) == Logged(s.movements, sl, k) + c
  }

  lemma IncreaseChanges(s: Stock, slot: Slot, key: Key, maker: int, quantity: int)
    ensures ChangedAt(s, Increased(s, slot, key, maker, quantity), slot, key, quantity)
  {
    var t := Increased(s, slot, key, maker, quantity);
    var found := FindMaker(s.records, slot, key, maker);
    forall sl, k
      ensures Total(t.records, sl, k) == Total(s.records, sl, k) + if sl == slot && k == key then quantity else 0
      ensures Logged(t.movements, sl, k) == Logged(s.movements, sl, k) + if sl == slot && k == key then quantity else 0
    {
      LoggedOfAppend(s.movements, Movement(slot, key, quantity), sl, k);
      if found.Some? {
        TotalOfUpdate(s.records, found.value, s.records[found.value].quantity + quantity, sl, k);
      } else {
        TotalOfAppend(s.records, Record(slot, key, maker, quantity), sl, k);
      }
    }
  }

  lemma SetChanges(s: Stock, i: nat, quantity: int)
    requires i < |s.records|
    ensures ChangedAt(s, WithQuantity(s, i, quantity), s.records[i].slot, s.records[i].key,
                      quantity - s.records[i].quantity)
  {
    var r, t := s.records[i], WithQuantity(s, i, quantity);
    if quantity != r.quantity {
      forall sl, k
        ensures Total(t.records, sl, k)
          == Total(s.records, sl, k) + if sl == r.slot && k == r.key then quantity - r.quantity else 0
        ensures Logged(t.movements, sl, k)
          == Logged(s.movements, sl, k) + if sl == r.slot && k == r.key then quantity - r.quantity else 0
      {
        LoggedOfAppend(s.movements, Movement(r.slot, r.key, quantity - r.quantity), sl, k);
        TotalOfUpdate(s.records, i, quantity, sl, k);
      }
    }
  }

  lemma NoChange(s: Stock, slot: Slot, key: Key)
    ensures ChangedAt(s, s, slot, key, 0)
  {
  }

  /** UNIQUE(workspace, part, colour, storage, maker, condition, ownership), and CHECK(quantity >= 0). */
  ghost predicate Lawful(records: seq<Record>) {
    && (forall i, j | 0 <= i < j < |records| ::
          !(records[i].slot == records[j].slot && records[i].key == records[j].key
            && records[i].maker == records[j].maker))
    && forall i | 0 <= i < |records| :: records[i].quantity >= 0
  }

  /** Neither operation can run into the constraints of the table. */
  lemma OperationsKeepLawful(s: Stock, slot: Slot, key: Key, maker: int, quantity: nat, i: nat)
    requires Lawful(s.records)
    ensures Lawful(Increased(s, slot, key, maker, quantity).records)
    ensures i < |s.records| ==> Lawful(WithQuantity(s, i, quantity).records)
  {
    var t := Increased(s, slot, key, maker, quantity).records;
    var found := FindMaker(s.records, slot, key, maker);
    forall a, b | 0 <= a < b < |t|
      ensures !(t[a].slot == t[b].slot && t[a].key == t[b].key && t[a].maker == t[b].maker)
    {
      if b < |s.records| {
        assert !(s.records[a].slot == s.records[b].slot && s.records[a].key == s.records[b].key
                 && s.records[a].maker == s.records[b].maker);
      }
    }
  }
}
