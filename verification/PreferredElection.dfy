/** selectPreferredRevisions: clear every preferred flag, then set it on the winner of each set. */
module PreferredElection {
  import opened Sql
  import opened Wrappers
  import opened CompositionModel

  /** The table with the preferred flag on exactly the rows of `chosen`. */
  ghost function Marked(table: Revisions, chosen: set<Text>): Revisions {
    map e | e in table :: table[e].(preferred := e in chosen)
  }

  /** The one-preferred index never stops the election: two winners of one set would share a version. */
  lemma WinnerNotRefused(table: Revisions, next: int, chosen: set<Text>, e: Text)
    requires RevisionsOk(table, next) && chosen <= Winners(table) && e in Winners(table)
    ensures !Refused(Marked(table, chosen), e, table[e].(preferred := true))
  {
    var now, row := Marked(table, chosen), table[e].(preferred := true);
    forall other | other in now && other != e ensures !Clash(now[other], row) {
      assert !Clash(table[other], table[e]);
      assert other in chosen ==> Elected(table, other);
    }
  }

  lemma MarkOne(table: Revisions, chosen: set<Text>, e: Text)
    requires e in table && e !in chosen
    ensures Marked(table, chosen)[e := table[e].(preferred := true)] == Marked(table, chosen + {e})
  {
  }

  lemma AllMarked(table: Revisions)
    ensures Marked(table, Winners(table)) == ElectedTable(table)
  {
  }

  lemma NothingToDo(table: Revisions)
    requires Winners(table) == Preferred(table)
    ensures ElectedTable(table) == table
  {
    forall e | e in table ensures ElectedTable(table)[e] == table[e] {
      assert e in Winners(table) <==> e in Preferred(table);
    }
  }

  /** The UPDATE statements of the election. */
  method MarkWinners(table: Revisions, ghost next: int, desired: set<Text>, faults: Faults)
    returns (ok: bool, now: Revisions)
    requires RevisionsOk(table, next) && desired == Winners(table)
    ensures faults.Quiet() ==> ok
    ensures ok ==> now == ElectedTable(table)
  {
    now := map e | e in table :: table[e].(preferred := false);
    if faults.statement(0) {
      return false, now;
    }
    var pending, at := desired, 1;
    assert now == Marked(table, {}) && desired - pending == {};
    while pending != {}
      invariant pending <= desired
      invariant now == Marked(table, desired - pending)
      decreases pending
    {
      var e :| e in pending;
      WinnerNotRefused(table, next, desired - pending, e);
      MarkOne(table, desired - pending, e);
      var row := now[e].(preferred := true);
      if faults.statement(at) || Refused(now, e, row) {
        return false, now;
      }
      assert desired - (pending - {e}) == (desired - pending) + {e};
      now, pending, at := now[e := row], pending - {e}, at + 1;
    }
    assert desired - pending == desired;
    AllMarked(table);
    ok := true;
  }
}
