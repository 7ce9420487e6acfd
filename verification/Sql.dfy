/**
 The part of a SQLite connection that the importers and the schema upgrade depend on: one level of
 transaction, autocommit outside it, and statements that can fail. The database itself is a value of
 type `T`, so "roll back" is "go back to the committed value".
 */
module Sql {

  /**
   Everything outside the program that can stop an import. `cancelled(k)` is the answer to the k-th
   look at the cancellation token; `statement(k)` says that the statements of step k fail for a reason
   that has nothing to do with the data (disk full, locked file).
   */
  datatype Faults = Faults(begin: bool, commit: bool, statement: nat -> bool, cancelled: nat -> bool)
  {
    /** Nothing outside the program interferes. */
    ghost predicate Quiet() {
      !begin && !commit && forall k: nat :: !statement(k) && !cancelled(k)
    }

    /** The token is looked at with this line, and asks to stop. */
    predicate StopsAt(every: nat, line: nat)
      requires every > 0
    {
      line % every == 0 && cancelled(line)
    }

    /** The token, looked at with every `every`-th line of the file, never asks to stop. */
    ghost predicate NeverStops(every: nat, lines: nat)
      requires every > 0
    {
      forall line: nat | 0 < line <= lines :: !StopsAt(every, line)
    }
  }

  class Connection<T> {
    var committed: T
    var working: T
    var inTransaction: bool

    /** Outside a transaction every statement commits itself, so there is nothing uncommitted. */
    ghost predicate Valid()
      reads this
    {
      !inTransaction ==> working == committed
    }

    ghost predicate Idle()
      reads this
    {
      !inTransaction && working == committed
    }

    constructor (initial: T)
      ensures Idle() && committed == initial
    {
      committed, working, inTransaction := initial, initial, false;
    }

    /** BEGIN: refused inside a transaction, since SQLite transactions do not nest. */
    method Begin(fault: bool) returns (ok: bool)
      requires Valid()
      modifies this`inTransaction
      ensures Valid()
      ensures ok <==> !old(inTransaction) && !fault
      ensures inTransaction <==> old(inTransaction) || ok
    {
      ok := !inTransaction && !fault;
      inTransaction := inTransaction || ok;
    }

    method Commit(fault: bool) returns (ok: bool)
      requires Valid()
      modifies this
      ensures Valid()
      ensures ok <==> old(inTransaction) && !fault
      ensures working == old(working)
      ensures inTransaction <==> old(inTransaction) && !ok
      ensures committed == if ok then old(working) else old(committed)
    {
      ok := inTransaction && !fault;
      if ok {
        committed, inTransaction := working, false;
      }
    }

    method Rollback()
      requires Valid()
      modifies this
      ensures Idle() && committed == old(committed)
    {
      working, inTransaction := committed, false;
    }

    /** The effect of one successful statement that leaves the database as `next`. */
    method Write(next: T)
      requires Valid()
      modifies this
      ensures Valid()
      ensures working == next && inTransaction == old(inTransaction)
      ensures committed == if inTransaction then old(committed) else next
    {
      working := next;
      if !inTransaction {
        committed := next;
      }
    }

    /** The end of a transaction: write and commit what the statements made, or go back. */
    method Conclude(ok: bool, next: T, fault: bool) returns (done: bool)
      requires Valid() && inTransaction
      modifies this
      ensures Idle()
      ensures done <==> ok && !fault
      ensures committed == if done then next else old(committed)
    {
      done := ok;
      if ok {
        Write(next);
        done := Commit(fault);
      }
      if !done {
        Rollback();
      }
    }
  }
}
