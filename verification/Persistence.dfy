/** The persistence service: every call may fail, and a failing write may or may not have taken effect. */
module Persistence {
  import opened Tables

  /** The fate of a call: done, failed before taking effect, or failed after taking effect (a lost answer). */
  datatype Fate = Done | FailedBefore | FailedAfter

  /** Calls number `from` to `to - 1` were all done. */
  predicate NoErrors(fate: nat -> Fate, from: nat, to: nat) {
    forall n | from <= n < to :: fate(n).Done?
  }

  class Db {
    const fate: nat -> Fate
    var tables: Tables
    var calls: nat
    var next: Id
    /** The tables after each write, including failed ones. */
    ghost var history: seq<Tables>

    /** Integrity now and after every single write so far. */
    ghost predicate Valid()
      reads this
    {
      && Sound(tables) && Below(tables, next) && (forall t <- history :: Sound(t))
      && tables == if history == [] then EMPTY else history[|history| - 1]
    }

    /** The service went on from a valid state to a valid state. */
    twostate predicate Progress()
      reads this
    {
      Valid() && old(history) <= history && old(calls) <= calls
    }

    constructor (fate: nat -> Fate)
      ensures Valid() && tables == EMPTY && calls == 0 && history == []
      ensures this.fate == fate
    {
      this.fate := fate;
      tables, calls, next, history := EMPTY, 0, 0, [];
    }

    /** A fresh UUID. */
    method NewId() returns (id: Id)
      requires Valid()
      modifies this`next
      ensures Valid() && id == old(next) && next == id + 1 && Unused(tables, id)
    {
      assert next !in IdsInUse(tables);
      id := next;
      next := next + 1;
    }

    /** A Read or Filter; its answer is read off the tables if it does not fail. */
    method Query() returns (ok: bool)
      requires Valid()
      modifies this`calls
      ensures Valid() && calls == old(calls) + 1
      ensures ok <==> fate(old(calls)).Done?
    {
      ok := fate(calls).Done?;
      calls := calls + 1;
    }

    /** The rows of an answer come in any order. */
    method Rows(ids: set<Id>) returns (rows: seq<Id>)
      ensures forall i :: i in rows <==> i in ids
      ensures forall i, j :: 0 <= i < j < |rows| ==> rows[i] != rows[j]
    {
      rows := [];
      var todo := ids;
      while todo != {}
        invariant todo <= ids
        invariant forall i :: i in rows <==> i in ids && i !in todo
        invariant forall i, j :: 0 <= i < j < |rows| ==> rows[i] != rows[j]
      {
        var i :| i in todo;
        todo := todo - {i};
        rows := rows + [i];
      }
    }

    /** Create or Delete. `affected` is the row count that Delete looks at. */
    method Write(op: Op) returns (ok: bool, affected: bool)
      requires Valid() && Guarded(tables, op) && NewRow(tables, op) && (IsDelete(op) || op.id < next)
      modifies this`tables, this`calls, this`history
      ensures Progress() && calls == old(calls) + 1 && history == old(history) + [tables]
      ensures ok <==> fate(old(calls)).Done?
      ensures ok ==> tables == Apply(old(tables), op) && affected == Affects(old(tables), op)
    {
      GuardedKeepsSound(tables, op);
      ApplyKeepsBelow(tables, op, next);
      var after := Apply(tables, op);
      ok, affected := fate(calls).Done?, Affects(tables, op);
      if !fate(calls).FailedBefore? {
        tables := after;
      }
      calls := calls + 1;
      history := history + [tables];
    }
  }
}
