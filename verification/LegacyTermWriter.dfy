/** The transactional batch writer that materializes the legacy term rows. */
module LegacyTermWriter {
  import opened Basics

  const INSERT_BATCH_ROWS: nat := 5000
  const TRANSACTION_ROWS: nat := 100000

  /** A database file that receives rows in transactions. Any statement may fail; a failed one changes nothing. */
  class LegacyDatabase<Row> {
    const faults: nat -> bool

    ghost predicate Faultless() {
      forall n: nat :: !faults(n)
    }

    var step: nat
    var transactionOpen: bool
    var uncommitted: seq<Row>
    var committed: seq<Row>
    ghost var transactions: seq<seq<Row>>
    ghost var inserts: seq<seq<Row>>

    ghost predicate Valid()
      reads this
    {
      && (!transactionOpen ==> uncommitted == [])
      && committed == Flatten(transactions)
    }

    constructor (faults: nat -> bool)
      ensures Valid() && this.faults == faults && step == 0
      ensures !transactionOpen && uncommitted == [] && committed == [] && transactions == [] && inserts == []
    {
      this.faults, step, transactionOpen := faults, 0, false;
      uncommitted, committed, transactions, inserts := [], [], [], [];
    }

    method Begin() returns (ok: bool)
      requires Valid() && !transactionOpen
      modifies this`step, this`transactionOpen
      ensures Valid() && step == old(step) + 1 && ok == !faults(old(step)) && transactionOpen == ok
    {
      ok := !faults(step);
      step, transactionOpen := step + 1, ok;
    }

    method Insert(rows: seq<Row>) returns (ok: bool)
      requires Valid() && transactionOpen
      modifies this`step, this`uncommitted, this`inserts
      ensures Valid() && step == old(step) + 1 && ok == !faults(old(step))
      ensures uncommitted == if ok then old(uncommitted) + rows else old(uncommitted)
      ensures inserts == if ok then old(inserts) + [rows] else old(inserts)
    {
      ok := !faults(step);
      if ok {
        uncommitted := uncommitted + rows;
        inserts := inserts + [rows];
      }
      step := step + 1;
    }

    method Commit() returns (ok: bool)
      requires Valid() && transactionOpen
      modifies this
      ensures Valid() && step == old(step) + 1 && ok == !faults(old(step)) && transactionOpen == !ok
      ensures inserts == old(inserts)
      ensures if ok then uncommitted == [] && transactions == old(transactions) + [old(uncommitted)]
                         && committed == old(committed) + old(uncommitted)
                    else uncommitted == old(uncommitted) && transactions == old(transactions)
                         && committed == old(committed)
    {
      ok := !faults(step);
      if ok {
        FlattenAppend(transactions, uncommitted);
        committed := committed + uncommitted;
        transactions := transactions + [uncommitted];
        uncommitted := [];
        transactionOpen := false;
      }
      step := step + 1;
    }

    /** Closing after ROLLBACK: whatever was uncommitted is gone. */
    method Rollback()
      requires Valid()
      modifies this`transactionOpen, this`uncommitted
      ensures Valid() && !transactionOpen && uncommitted == []
    {
      transactionOpen, uncommitted := false, [];
    }
  }

  /** Every committed transaction is full, except possibly the last one. */
  ghost predicate FullButLast<Row>(transactions: seq<seq<Row>>) {
    forall i :: 0 <= i < |transactions| - 1 ==> |transactions[i]| >= TRANSACTION_ROWS
  }

  ghost predicate Full<Row>(transactions: seq<seq<Row>>) {
    forall i :: 0 <= i < |transactions| ==> |transactions[i]| >= TRANSACTION_ROWS
  }

  lemma FullAppend<Row>(transactions: seq<seq<Row>>, last: seq<Row>)
    requires Full(transactions)
    ensures FullButLast(transactions) && FullButLast(transactions + [last])
    ensures |last| >= TRANSACTION_ROWS ==> Full(transactions + [last])
  {
  }

  ghost predicate Bounded<Row>(parts: seq<seq<Row>>, bound: nat) {
    forall i :: 0 <= i < |parts| ==> 0 < |parts[i]| <= bound
  }

  /** The writer's closures over its batch and its transaction. */
  class Materializer<Row> {
    const legacy: LegacyDatabase<Row>
    var batch: seq<Row>
    var transactionRows: nat
    var postingRows: nat

    /** `taken` are the input rows taken over so far: committed, uncommitted and batched, in order. */
    ghost predicate Valid(taken: seq<Row>)
      reads this, legacy
    {
      && legacy.Valid()
      && legacy.committed + legacy.uncommitted + batch == taken
      && postingRows == |legacy.committed| + |legacy.uncommitted|
      && |batch| < INSERT_BATCH_ROWS
      && (legacy.transactionOpen ==> transactionRows == |legacy.uncommitted| && 0 < transactionRows < TRANSACTION_ROWS)
      && Bounded(legacy.inserts, INSERT_BATCH_ROWS)
      && Bounded(legacy.transactions, TRANSACTION_ROWS + INSERT_BATCH_ROWS - 1)
      && Full(legacy.transactions)
    }

    /** What a failed step leaves: the committed rows are whole full transactions that start the input. */
    ghost predicate Recoverable(taken: seq<Row>)
      reads this, legacy
    {
      && legacy.Valid()
      && legacy.committed <= taken
      && Bounded(legacy.transactions, TRANSACTION_ROWS + INSERT_BATCH_ROWS - 1)
      && FullButLast(legacy.transactions)
    }

    constructor (legacy: LegacyDatabase<Row>)
      requires legacy.Valid() && !legacy.transactionOpen && legacy.committed == [] && legacy.uncommitted == []
      requires legacy.transactions == [] && legacy.inserts == []
      ensures Valid([]) && this.legacy == legacy
    {
      this.legacy := legacy;
      batch, transactionRows, postingRows := [], 0, 0;
    }

    method Commit(ghost taken: seq<Row>) returns (ok: bool)
      requires legacy.Valid() && legacy.committed + legacy.uncommitted + batch == taken
      requires Bounded(legacy.inserts, INSERT_BATCH_ROWS)
      requires Bounded(legacy.transactions, TRANSACTION_ROWS + INSERT_BATCH_ROWS - 1)
      requires Full(legacy.transactions)
      requires legacy.transactionOpen ==> 0 < |legacy.uncommitted| <= TRANSACTION_ROWS + INSERT_BATCH_ROWS - 1
      modifies legacy
      ensures legacy.Faultless() ==> ok
      ensures Recoverable(taken) && legacy.inserts == old(legacy.inserts)
      ensures ok ==> legacy.committed == old(legacy.committed) + old(legacy.uncommitted)
      ensures ok ==> legacy.uncommitted == [] && !legacy.transactionOpen
      ensures ok && old(legacy.transactionOpen) && |old(legacy.uncommitted)| >= TRANSACTION_ROWS ==>
                Full(legacy.transactions)
    {
      hide Flatten, Bounded, Full, FullButLast;
      FullAppend(legacy.transactions, legacy.uncommitted);
      if !legacy.transactionOpen {
        return true;
      }
      BoundedAppend(legacy.transactions, legacy.uncommitted, TRANSACTION_ROWS + INSERT_BATCH_ROWS - 1);
      ok := legacy.Commit();
    }

    method Flush(ghost taken: seq<Row>) returns (ok: bool)
      requires legacy.Valid() && legacy.committed + legacy.uncommitted + batch == taken
      requires postingRows == |legacy.committed| + |legacy.uncommitted|
      requires |batch| <= INSERT_BATCH_ROWS
      requires legacy.transactionOpen ==>
                 transactionRows == |legacy.uncommitted| && 0 < transactionRows < TRANSACTION_ROWS
      requires Bounded(legacy.inserts, INSERT_BATCH_ROWS)
      requires Bounded(legacy.transactions, TRANSACTION_ROWS + INSERT_BATCH_ROWS - 1)
      requires Full(legacy.transactions)
      modifies this, legacy
      ensures legacy.Faultless() ==> ok
      ensures Recoverable(taken)
      ensures ok ==> Valid(taken) && batch == []
    {
      hide Flatten, Bounded, Full, FullButLast;
      FullAppend(legacy.transactions, []);
      if |batch| == 0 {
        return true;
      }
      if !legacy.transactionOpen {
        var begun := legacy.Begin();
        if !begun {
          return false;
        }
        transactionRows := 0;
      }
      ghost var before := legacy.inserts;
      var inserted := legacy.Insert(batch);
      if !inserted {
        return false;
      }
      BoundedAppend(before, batch, INSERT_BATCH_ROWS);
      Reassociate(legacy.committed, old(legacy.uncommitted), batch);
      postingRows := postingRows + |batch|;
      transactionRows := transactionRows + |batch|;
      batch := [];
      if transactionRows >= TRANSACTION_ROWS {
        ok := Commit(taken);
      } else {
        ok := true;
      }
    }
  }

  lemma Reassociate<Row>(committed: seq<Row>, uncommitted: seq<Row>, batch: seq<Row>)
    ensures committed + (uncommitted + batch) + [] == committed + uncommitted + batch
    ensures committed + (uncommitted + batch) == committed + uncommitted + batch
  {
  }

  lemma BoundedAppend<Row>(parts: seq<seq<Row>>, last: seq<Row>, bound: nat)
    requires Bounded(parts, bound) && 0 < |last| <= bound
    ensures Bounded(parts + [last], bound)
  {
  }

  /** Copies the rows. Reading the input may fail at any of them or after the last one, and any statement may fail. On
      success the target holds the input rows exactly once and in order, every insert had at most 5,000 rows, every
      transaction fewer than 100,000 plus one batch, and no transaction is open. When any step fails the committed rows
      are a prefix of the input made of whole transactions. */
  method MaterializeLegacyTerms<Row>(rows: seq<Row>, readFault: Option<nat>, legacy: LegacyDatabase<Row>)
    returns (postingRows: Option<nat>)
    requires legacy.Valid() && !legacy.transactionOpen && legacy.committed == [] && legacy.uncommitted == []
    requires legacy.transactions == [] && legacy.inserts == []
    modifies legacy
    ensures legacy.Valid() && !legacy.transactionOpen && legacy.uncommitted == []
    ensures legacy.committed == Flatten(legacy.transactions) && legacy.committed <= rows
    ensures Bounded(legacy.transactions, TRANSACTION_ROWS + INSERT_BATCH_ROWS - 1) && FullButLast(legacy.transactions)
    ensures legacy.Faultless() && readFault.None? ==> postingRows.Some?
    ensures readFault.Some? && readFault.value <= |rows| ==> postingRows.None?
    ensures postingRows.Some? ==>
              legacy.committed == rows && postingRows.value == |rows| && Bounded(legacy.inserts, INSERT_BATCH_ROWS)
  {
    hide Flatten, Bounded, Full, FullButLast;
    var writer := new Materializer<Row>(legacy);
    for i := 0 to |rows|
      invariant fresh(writer) && writer.legacy == legacy
      invariant writer.Valid(rows[..i])
      invariant readFault.Some? ==> readFault.value >= i
    {
      if readFault == Some(i) {
        FullAppend(legacy.transactions, []);
        legacy.Rollback();
        return None;
      }
      assert rows[..i + 1] == rows[..i] + [rows[i]];
      writer.batch := writer.batch + [rows[i]];
      assert legacy.committed + legacy.uncommitted + writer.batch == rows[..i + 1];
      if |writer.batch| >= INSERT_BATCH_ROWS {
        var flushed := writer.Flush(rows[..i + 1]);
        if !flushed {
          legacy.Rollback();
          return None;
        }
      }
    }
    assert rows[..|rows|] == rows;
    if readFault == Some(|rows|) {
      FullAppend(legacy.transactions, []);
      legacy.Rollback();
      return None;
    }
    var flushed := writer.Flush(rows);
    if flushed {
      flushed := writer.Commit(rows);
    }
    if !flushed {
      legacy.Rollback();
      return None;
    }
    return Some(writer.postingRows);
  }
}
