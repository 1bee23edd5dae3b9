/** `Transaction` and `TransactionManager` of crabstash-txn/src/transaction.rs. */
module Transactions {
  import opened Bytes
  import opened Graph
  import opened TxnState

  class Transaction {
    const id: TxnId
    const startTs: u64
    const isolation: IsolationLevel
    var commitTs: Option<nat>
    var state: TransactionState
    var writeSet: WriteSet
    var readSet: set<bytes>

    constructor (id: TxnId, startTs: u64, isolation: IsolationLevel)
      ensures this.id == id && Snapshot() == Txn(startTs, None, isolation, Open, NoWrites, {})
    {
      this.id, this.startTs, this.isolation := id, startTs, isolation;
      commitTs, state, writeSet, readSet := None, Open, NoWrites, {};
    }

    /** The transaction as a value. */
    function Snapshot(): Txn
      reads this
    {
      Txn(startTs, commitTs, isolation, state, writeSet, readSet)
    }

    method RecordRead(key: bytes)
      modifies this`readSet
      ensures readSet == if isolation.Serializable? then old(readSet) + {key} else old(readSet)
    {
      if isolation.IsSerializable() && !isolation.IsReadOnly() {
        readSet := readSet + {key};
      }
    }
  }

  class TransactionManager {
    var activeTxns: map<TxnId, Transaction>
    var committedTxns: seq<CommittedWrites>

    constructor ()
      ensures activeTxns == map[] && committedTxns == []
    {
      activeTxns, committedTxns := map[], [];
    }

    method Begin(id: TxnId, startTs: u64, isolation: IsolationLevel) returns (txn: Transaction)
      modifies this`activeTxns
      ensures fresh(txn) && txn.id == id && txn.Snapshot() == Txn(startTs, None, isolation, Open, NoWrites, {})
      ensures activeTxns == old(activeTxns)[id := txn]
    {
      txn := new Transaction(id, startTs, isolation);
      activeTxns := activeTxns[id := txn];
    }

    /** Every retained commit is compared with every key read, in any order of the keys. */
    method ValidateSerializable(txn: Transaction, commitTs: nat) returns (ok: bool)
      ensures ok <==> ReadsStillCurrent(committedTxns, txn.Snapshot(), commitTs)
    {
      for i := 0 to |committedTxns|
        invariant ReadsStillCurrent(committedTxns[..i], txn.Snapshot(), commitTs)
      {
        var other := committedTxns[i];
        if other.commitTs > txn.startTs && other.startTs < commitTs {
          var remaining := txn.readSet;
          while remaining != {}
            invariant remaining <= txn.readSet
            invariant forall k :: k in txn.readSet && k !in remaining ==> k !in other.keys
            decreases remaining
          {
            var key :| key in remaining;
            if key in other.keys {
              assert key in other.keys * txn.readSet;
              return false;
            }
            remaining := remaining - {key};
          }
        }
        assert committedTxns[..i + 1] == committedTxns[..i] + [other];
      }
      assert committedTxns[..|committedTxns|] == committedTxns;
      ok := true;
    }

    method PrepareCommit(txn: Transaction, commitTs: nat) returns (ok: bool)
      modifies txn`commitTs
      ensures ok <==> !txn.isolation.Serializable? || old(ReadsStillCurrent(committedTxns, txn.Snapshot(), commitTs))
      ensures txn.commitTs == if ok then Some(commitTs) else old(txn.commitTs)
    {
      ok := true;
      if txn.isolation.Serializable? {
        ok := ValidateSerializable(txn, commitTs);
      }
      if ok {
        txn.commitTs := Some(commitTs);
      }
    }

    /** Refused for a transaction that has ended, and for one that was never prepared. */
    method Commit(txn: Transaction) returns (ok: bool)
      modifies this, txn`state
      ensures ok <==> old(txn.state).Open? && txn.commitTs.Some?
      ensures !ok ==> activeTxns == old(activeTxns) && committedTxns == old(committedTxns)
      ensures !ok ==> txn.state == old(txn.state)
      ensures ok ==>
                && txn.state == Committed && activeTxns == old(activeTxns) - {txn.id}
                && committedTxns ==
                     old(committedTxns) + [CommittedWrites(txn.commitTs.value, txn.startTs, txn.writeSet.Keys())]
    {
      if !txn.state.Open? {
        return false;
      }
      var keys := txn.writeSet.puts.Keys + txn.writeSet.deletes;
      if txn.commitTs.None? {
        return false;
      }
      committedTxns := committedTxns + [CommittedWrites(txn.commitTs.value, txn.startTs, keys)];
      txn.state := Committed;
      activeTxns := activeTxns - {txn.id};
      ok := true;
    }

    method Abort(txn: Transaction)
      modifies this`activeTxns, txn`state
      ensures txn.state == Aborted && activeTxns == old(activeTxns) - {txn.id}
    {
      txn.state := Aborted;
      activeTxns := activeTxns - {txn.id};
    }

    method Gc(watermark: nat)
      modifies this`committedTxns
      ensures committedTxns == KeepAfter(old(committedTxns), watermark)
    {
      var kept := [];
      for i := 0 to |committedTxns|
        invariant kept == KeepAfter(committedTxns[..i], watermark)
      {
        assert committedTxns[..i + 1][..i] == committedTxns[..i];
        if committedTxns[i].commitTs > watermark {
          kept := kept + [committedTxns[i]];
        }
      }
      assert committedTxns[..|committedTxns|] == committedTxns;
      committedTxns := kept;
    }
  }
}
