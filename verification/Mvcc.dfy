/**
 `MvccEngine` of crabstash-txn/src/mvcc.rs over its storage, transaction manager and SSI manager. Every
 method does to the whole state what the function of the same name in `TxnState` says.
 */
module Mvcc {
  import opened Bytes
  import opened Graph
  import opened TxnState
  import opened Transactions
  import SsiState
  import Ssi
  import LockState
  import MemTables

  datatype Error =
    | LockTimeout | Deadlock | TransactionAborted | LockConflict
    | WriteSkew | PhantomRead | SerializableConflict
    | TransactionConflict
    | InvalidArgument

  function LockErrorToCommon(err: LockState.LockError): Error {
    match err
    case Timeout => LockTimeout
    case Deadlocked => Deadlock
    case TransactionAborted => TransactionAborted
    case _ => LockConflict
  }

  function SsiErrorToCommon(err: Ssi.SSIConflict): Error {
    match err
    case WriteSkew(_) => WriteSkew
    case PhantomRead(_) => PhantomRead
    case DangerousStructure(_, _) => SerializableConflict
    case TxnNotFound => TransactionAborted
  }

  ghost function Snapshots(txns: map<TxnId, Transaction>): map<TxnId, Txn>
    reads txns.Values
  {
    map id | id in txns :: txns[id].Snapshot()
  }

  ghost predicate IdsBelow(ssi: SsiState.Ssi, n: nat) {
    forall id :: id in ssi.active || id in ssi.startTs ==> id < n
  }

  ghost predicate OwnIds(txns: map<TxnId, Transaction>) {
    forall id :: id in txns ==> txns[id].id == id
  }

  /** A read-only transaction never gets a commit timestamp. */
  ghost predicate Unprepared(snapshots: map<TxnId, Txn>) {
    forall id :: id in snapshots && snapshots[id].isolation.IsReadOnly() ==> snapshots[id].commitTs.None?
  }

  /** Only `txn` differs from the snapshots taken before. */
  lemma OthersUnchanged(before: map<TxnId, Txn>, txns: map<TxnId, Transaction>, txn: Transaction)
    requires txn.id in txns && txns[txn.id] == txn && before.Keys + {txn.id} == txns.Keys
    requires forall id :: id in before && id != txn.id ==> txns[id].Snapshot() == before[id]
    ensures Snapshots(txns) == before[txn.id := txn.Snapshot()]
    ensures Unprepared(before) && (txn.isolation.IsReadOnly() ==> txn.commitTs.None?) ==> Unprepared(Snapshots(txns))
  {
    hide Unprepared;
    assert Snapshots(txns) == before[txn.id := txn.Snapshot()];
    if Unprepared(before) && (txn.isolation.IsReadOnly() ==> txn.commitTs.None?) {
      StillUnprepared(before, txn.id, txn.Snapshot());
    }
  }

  lemma UnpreparedAt(snapshots: map<TxnId, Txn>, id: TxnId)
    requires Unprepared(snapshots) && id in snapshots
    ensures snapshots[id].isolation.IsReadOnly() ==> snapshots[id].commitTs.None?
  {
  }

  lemma StillUnprepared(before: map<TxnId, Txn>, id: TxnId, t: Txn)
    requires Unprepared(before) && (t.isolation.IsReadOnly() ==> t.commitTs.None?)
    ensures Unprepared(before[id := t])
  {
  }

  class MvccEngine {
    const storage: MemTables.Storage
    const txnManager: TransactionManager
    const ssiManager: Ssi.SSIManager
    var nextTxnId: TxnId
    /** Every handle ever given out. */
    ghost var txns: map<TxnId, Transaction>

    constructor (hash: Hasher)
      ensures Valid() && View() == NewEngine && ssiManager.hash == hash && nextTxnId == 1
    {
      storage := new MemTables.Storage();
      txnManager := new TransactionManager();
      ssiManager := new Ssi.SSIManager(hash);
      nextTxnId, txns := 1, map[];
    }

    ghost predicate Valid()
      reads this, storage, storage.memtable, txnManager, ssiManager, ssiManager.writeBloom,
            ssiManager.writeBloom.words, txns.Values
    {
      SsiOk() && TxnsOk() && storage.Valid()
    }

    ghost predicate SsiOk()
      reads this`nextTxnId, ssiManager, ssiManager.writeBloom, ssiManager.writeBloom.words
    {
      ssiManager.Valid() && IdsBelow(ssiManager.View(), nextTxnId)
    }

    ghost predicate TxnsOk()
      reads this`nextTxnId, this`txns, txns.Values
    {
      && OwnIds(txns)
      && Unprepared(Snapshots(txns))
      && (forall id :: id in txns ==> id < nextTxnId)
    }

    ghost function View(): Engine
      reads this`txns, storage`contents, txnManager, ssiManager, txns.Values
    {
      Engine(storage.contents, Snapshots(txns), txnManager.activeTxns.Keys, txnManager.committedTxns, ssiManager.View())
    }

    ghost predicate Knows(txn: Transaction)
      reads this
    {
      txn.id in txns && txns[txn.id] == txn
    }

    method BeginSsi(txnId: TxnId, startTs: u64, isolation: IsolationLevel)
      requires ssiManager.Valid() && IdsBelow(ssiManager.View(), txnId)
      modifies ssiManager
      ensures ssiManager.Valid() && IdsBelow(ssiManager.View(), txnId + 1)
      ensures ssiManager.View() == SsiBegun(old(ssiManager.View()), txnId, startTs, isolation)
    {
      assert txnId !in ssiManager.View().active && txnId !in ssiManager.View().startTs;
      if isolation.IsSerializable() {
        if isolation.IsReadOnly() {
          ssiManager.BeginReadOnlyTxn(txnId, startTs);
        } else {
          ssiManager.BeginTxnWithTs(txnId, startTs);
        }
      }
    }

    method Enlist(txnId: TxnId, startTs: u64, isolation: IsolationLevel) returns (txn: Transaction)
      requires OwnIds(txns) && txnId !in txns
      modifies this`txns, txnManager`activeTxns
      ensures fresh(txn) && txn.id == txnId && txns == old(txns)[txnId := txn] && OwnIds(txns)
      ensures old(Unprepared(Snapshots(txns))) ==> Unprepared(Snapshots(txns))
      ensures Snapshots(txns) == old(Snapshots(txns))[txnId := Txn(startTs, None, isolation, Open, NoWrites, {})]
      ensures txnManager.activeTxns.Keys == old(txnManager.activeTxns.Keys) + {txnId}
    {
      txn := txnManager.Begin(txnId, startTs, isolation);
      txns := txns[txnId := txn];
      OthersUnchanged(old(Snapshots(txns)), txns, txn);
    }

    method BeginAs(txnId: TxnId, startTs: u64, isolation: IsolationLevel) returns (txn: Transaction)
      requires ssiManager.Valid() && IdsBelow(ssiManager.View(), txnId)
      requires OwnIds(txns) && txnId !in txns
      modifies this`txns, txnManager`activeTxns, ssiManager
      ensures ssiManager.Valid() && IdsBelow(ssiManager.View(), txnId + 1)
      ensures fresh(txn) && txn.id == txnId && txns == old(txns)[txnId := txn] && OwnIds(txns)
      ensures old(Unprepared(Snapshots(txns))) ==> Unprepared(Snapshots(txns))
      ensures View() == Begin(old(View()), txnId, startTs, isolation)
    {
      hide Ssi.SSIManager.Valid, Ssi.SSIManager.View, OwnIds, Snapshots, IdsBelow, Unprepared, SsiBegun;
      BeginSsi(txnId, startTs, isolation);
      txn := Enlist(txnId, startTs, isolation);
    }

    /** `now` comes from the timestamp oracle; `safe` is what a deferrable transaction waited for. */
    method BeginWithIsolation(isolation: IsolationLevel, now: u64, safe: Option<u64>) returns (txn: Transaction)
      requires Valid() && nextTxnId < U64_MAX
      modifies this`nextTxnId, this`txns, txnManager`activeTxns, ssiManager
      ensures Valid() && fresh(txn) && Knows(txn) && txn.id == old(nextTxnId)
      ensures View() == Begin(old(View()), txn.id,
                              if isolation.IsDeferrable() && safe.Some? then safe.value else now, isolation)
    {
      hide Ssi.SSIManager.Valid, MemTables.Storage.Valid, View, OwnIds, IdsBelow, Unprepared, Begin;
      var txnId := nextTxnId;
      nextTxnId := nextTxnId + 1;
      var startTs: u64 := if isolation.IsDeferrable() && safe.Some? then safe.value else now;
      txn := BeginAs(txnId, startTs, isolation);
    }

    method NoteRead(txn: Transaction, key: bytes)
      requires TxnsOk() && Knows(txn)
      modifies txn`readSet
      ensures TxnsOk()
      ensures View() ==
              if txn.isolation.Serializable? then
                WithTxn(old(View()), txn.id, old(txn.Snapshot()).(readSet := old(txn.readSet) + {key}))
              else old(View())
    {
      hide Ssi.SSIManager.View, Unprepared;
      txn.RecordRead(key);
      OthersUnchanged(old(Snapshots(txns)), txns, txn);
      UnpreparedAt(old(Snapshots(txns)), txn.id);
    }

    method TrackSsiRead(txn: Transaction, key: bytes)
      requires SsiOk()
      modifies ssiManager`activeTxns
      ensures SsiOk()
      ensures View() == old(View()).(ssi :=
                if txn.isolation.Serializable? then SsiState.RecordRead(ssiManager.hash, old(View()).ssi, txn.id, key)
                else old(View()).ssi)
    {
      hide Ssi.SSIManager.Valid, Ssi.SSIManager.View, IdsBelow, SsiState.RecordRead, Snapshots;
      SsiReadBelow(ssiManager.hash, ssiManager.View(), txn.id, key, nextTxnId);
      if txn.isolation == Serializable {
        ssiManager.RecordReadOf(txn.id, key);
      }
    }

    /** Tracks a storage read of a Serializable transaction, in both managers. */
    method TrackRead(txn: Transaction, key: bytes)
      requires Valid() && Knows(txn) && txn.writeSet.Get(key).None?
      modifies txn`readSet, ssiManager`activeTxns
      ensures Valid() && View() == TxnState.Get(ssiManager.hash, old(View()), txn.id, key).0
    {
      hide SsiOk, TxnsOk, MemTables.Storage.Valid, Ssi.SSIManager.View, TxnState.Get, WithTxn, SsiState.RecordRead;
      ghost var e := View();
      assert e.txns[txn.id] == txn.Snapshot();
      hide View, Snapshots;
      GetInSteps(ssiManager.hash, e, txn.id, key);
      TrackSsiRead(txn, key);
      NoteRead(txn, key);
    }

    method ReadStorage(key: bytes, ts: u64) returns (r: Option<bytes>)
      requires Valid()
      ensures MemTables.IsReadAt(storage.memtable.entries, key, ts, r)
      ensures storage.nextTs <= ts + 1 ==> r == Lookup(View().store, key)
    {
      hide SsiOk, TxnsOk, MemTables.Storage.Valid, Snapshots;
      r := storage.GetAtTs(key, ts);
    }

    method Get(txn: Transaction, key: bytes) returns (r: Option<bytes>)
      requires Valid() && Knows(txn)
      modifies txn`readSet, ssiManager`activeTxns
      ensures Valid() && View() == TxnState.Get(ssiManager.hash, old(View()), txn.id, key).0
      ensures txn.writeSet.Get(key).None? ==> MemTables.IsReadAt(storage.memtable.entries, key, txn.startTs, r)
      ensures txn.writeSet.Get(key).Some? || storage.nextTs <= txn.startTs + 1 ==>
                r == TxnState.Get(ssiManager.hash, old(View()), txn.id, key).1
    {
      hide Valid, TxnState.Get, Ssi.SSIManager.View;
      ghost var e := View();
      assert e.txns[txn.id] == txn.Snapshot();
      hide View, Snapshots;
      GetAnswer(ssiManager.hash, e, txn.id, key);
      var own := txn.writeSet.Get(key);
      if own.Some? {
        return own.value;
      }
      TrackRead(txn, key);
      r := ReadStorage(key, txn.startTs);
    }

    method EnterWrite(txn: Transaction, key: bytes, value: Option<bytes>)
      requires TxnsOk() && Knows(txn)
      modifies txn`writeSet
      ensures TxnsOk()
      ensures View() == WithTxn(old(View()), txn.id, old(txn.Snapshot()).(
                          writeSet := old(txn.writeSet).Enter(key, value)))
    {
      hide Ssi.SSIManager.View, WriteSet.Enter, Unprepared;
      assert forall id :: id in txns && id != txn.id ==> txns[id] != txn;
      assert Snapshots(txns)[txn.id] == txn.Snapshot();
      UnpreparedAt(Snapshots(txns), txn.id);
      hide OwnIds;
      txn.writeSet := txn.writeSet.Enter(key, value);
      OthersUnchanged(old(Snapshots(txns)), txns, txn);
      hide Snapshots;
    }

    method TrackSsiWrite(txn: Transaction, key: bytes)
      requires SsiOk()
      modifies ssiManager, ssiManager.writeBloom.words
      ensures SsiOk()
      ensures View() == old(View()).(ssi :=
                if txn.isolation.Serializable? then SsiState.RecordWrite(ssiManager.hash, old(View()).ssi, txn.id, key)
                else old(View()).ssi)
    {
      hide Ssi.SSIManager.Valid, Ssi.SSIManager.View, IdsBelow, SsiState.RecordWrite, Snapshots;
      SsiWriteBelow(ssiManager.hash, ssiManager.View(), txn.id, key, nextTxnId);
      if txn.isolation == Serializable {
        ssiManager.RecordWriteOf(txn.id, key);
      }
    }

    /** Tracks a write in the SSI manager and enters it in the write set. */
    method TrackWrite(txn: Transaction, key: bytes, value: Option<bytes>)
      requires Valid() && Knows(txn) && !txn.isolation.IsReadOnly()
      modifies txn`writeSet, ssiManager, ssiManager.writeBloom.words
      ensures Valid() && View() == Write(ssiManager.hash, old(View()), txn.id, key, value)
    {
      hide SsiOk, TxnsOk, MemTables.Storage.Valid, Ssi.SSIManager.View, Write, WithTxn, SsiState.RecordWrite;
      ghost var e := View();
      assert e.txns[txn.id] == txn.Snapshot();
      hide View, Snapshots;
      WriteInSteps(ssiManager.hash, e, txn.id, key, value);
      TrackSsiWrite(txn, key);
      EnterWrite(txn, key, value);
    }

    /** `lock` is the refusal of the lock manager, if any. */
    method Put(txn: Transaction, key: bytes, value: bytes, lock: Option<LockState.LockError>) returns (r: Option<Error>)
      requires Valid() && Knows(txn)
      modifies txn`writeSet, ssiManager, ssiManager.writeBloom.words
      ensures Valid()
      ensures r == if txn.isolation.IsReadOnly() then Some(InvalidArgument)
                   else if lock.Some? then Some(LockErrorToCommon(lock.value)) else None
      ensures View() == if r.None? then Write(ssiManager.hash, old(View()), txn.id, key, Some(value)) else old(View())
    {
      if txn.isolation.IsReadOnly() {
        return Some(InvalidArgument);
      }
      if lock.Some? {
        return Some(LockErrorToCommon(lock.value));
      }
      hide Valid, Write, Ssi.SSIManager.View;
      assert View().txns[txn.id] == txn.Snapshot();
      hide View;
      TrackWrite(txn, key, Some(value));
      r := None;
    }

    method Delete(txn: Transaction, key: bytes, lock: Option<LockState.LockError>) returns (r: Option<Error>)
      requires Valid() && Knows(txn)
      modifies txn`writeSet, ssiManager, ssiManager.writeBloom.words
      ensures Valid()
      ensures r == if txn.isolation.IsReadOnly() then Some(InvalidArgument)
                   else if lock.Some? then Some(LockErrorToCommon(lock.value)) else None
      ensures View() == if r.None? then Write(ssiManager.hash, old(View()), txn.id, key, None) else old(View())
    {
      if txn.isolation.IsReadOnly() {
        return Some(InvalidArgument);
      }
      if lock.Some? {
        return Some(LockErrorToCommon(lock.value));
      }
      hide Valid, Write, Ssi.SSIManager.View;
      assert View().txns[txn.id] == txn.Snapshot();
      hide View;
      TrackWrite(txn, key, None);
      r := None;
    }

    method MarkAborted(txn: Transaction)
      requires TxnsOk() && Knows(txn)
      modifies txn`state, txnManager`activeTxns
      ensures TxnsOk()
      ensures View() == WithTxn(old(View()), txn.id, old(txn.Snapshot()).(state := Aborted)).(
                          active := old(View()).active - {txn.id})
    {
      hide Unprepared;
      txnManager.Abort(txn);
      OthersUnchanged(old(Snapshots(txns)), txns, txn);
      UnpreparedAt(old(Snapshots(txns)), txn.id);
    }

    method AbortSsi(txn: Transaction)
      requires SsiOk()
      modifies ssiManager
      ensures SsiOk()
      ensures View() == old(View()).(ssi :=
                if txn.isolation.IsSerializable() then SsiState.Abort(old(View()).ssi, txn.id) else old(View()).ssi)
    {
      hide Ssi.SSIManager.Valid, Ssi.SSIManager.View, IdsBelow, SsiState.Abort, Snapshots;
      SsiAbortBelow(ssiManager.View(), txn.id, nextTxnId);
      if txn.isolation.IsSerializable() {
        ssiManager.AbortTxn(txn.id);
      }
    }

    method Abort(txn: Transaction)
      requires Valid() && Knows(txn)
      modifies txn`state, txnManager`activeTxns, ssiManager
      ensures Valid() && View() == TxnState.Abort(old(View()), txn.id)
    {
      hide SsiOk, TxnsOk, MemTables.Storage.Valid, SsiState.Abort, Ssi.SSIManager.View;
      ghost var e := View();
      assert e.txns[txn.id] == txn.Snapshot();
      hide View, Snapshots;
      MarkAborted(txn);
      AbortSsi(txn);
    }

    method ApplyPuts(puts: map<bytes, bytes>)
      requires storage.Valid()
      modifies storage, storage.memtable
      ensures storage.Valid() && storage.contents == old(storage.contents) + puts
    {
      hide MemTables.Storage.Valid;
      var remaining := puts.Keys;
      while remaining != {}
        invariant storage.Valid() && remaining <= puts.Keys
        invariant storage.contents == old(storage.contents) + (puts - remaining)
        decreases remaining
      {
        var key :| key in remaining;
        storage.Put(key, puts[key]);
        assert (puts - remaining)[key := puts[key]] == puts - (remaining - {key});
        remaining := remaining - {key};
      }
      assert puts - {} == puts;
    }

    method ApplyDeletes(deletes: set<bytes>)
      requires storage.Valid()
      modifies storage, storage.memtable
      ensures storage.Valid() && storage.contents == old(storage.contents) - deletes
    {
      hide MemTables.Storage.Valid;
      var remaining := deletes;
      while remaining != {}
        invariant storage.Valid() && remaining <= deletes
        invariant storage.contents == old(storage.contents) - (deletes - remaining)
        decreases remaining
      {
        var key :| key in remaining;
        storage.Delete(key);
        assert deletes - remaining + {key} == deletes - (remaining - {key});
        remaining := remaining - {key};
      }
      assert deletes - {} == deletes;
    }

    /** The first step of a commit: validation by the SSI manager, which may refuse. */
    method ValidateSsi(txn: Transaction, commitTs: nat) returns (r: Option<Error>)
      requires SsiOk() && commitTs !in ssiManager.committedTxns
      modifies ssiManager
      ensures SsiOk()
      ensures View() == old(View()).(ssi :=
                if txn.isolation.Serializable? then
                  SsiState.Validate(old(View()).ssi, txn.id, txn.startTs, commitTs, []).0
                else old(View()).ssi)
      ensures r.None? <==>
              (txn.isolation.Serializable? ==> SsiState.Accepts(old(View()).ssi, txn.id, txn.startTs, commitTs))
      ensures r.Some? ==> CommitAnswer(SsiRefused, r)
      ensures r.Some? ==>
                SsiAnswer(old(View()).ssi, ssiManager.activeTxns, txn.id, txn.startTs, commitTs, r.value)
    {
      hide SsiOk, SsiAnswer, CommitAnswer, Snapshots, SsiState.Validate, SsiState.Accepts, Ssi.SSIManager.View;
      r := None;
      if txn.isolation == Serializable {
        r := AskSsi(txn.id, txn.startTs, commitTs);
      }
    }

    method AskSsi(txnId: TxnId, startTs: nat, commitTs: nat) returns (r: Option<Error>)
      requires SsiOk() && commitTs !in ssiManager.committedTxns
      modifies ssiManager
      ensures SsiOk() && ssiManager.View() == SsiState.Validate(old(ssiManager.View()), txnId, startTs, commitTs, []).0
      ensures r.None? <==> SsiState.Accepts(old(ssiManager.View()), txnId, startTs, commitTs)
      ensures r.Some? ==>
                && CommitAnswer(SsiRefused, r)
                && SsiAnswer(old(ssiManager.View()), ssiManager.activeTxns, txnId, startTs, commitTs, r.value)
    {
      ghost var ssi := ssiManager.View();
      assert ssi.active.Keys == ssiManager.activeTxns.Keys;
      hide SsiAnswer, CommitAnswer, SsiErrorToCommon, IdsBelow, SsiState.Phantom, SsiState.Validate, SsiState.Accepts;
      hide Ssi.SSIManager.Valid, Ssi.SSIManager.View;
      ValidateAnswer(ssi, txnId, startTs, commitTs);
      SsiValidateBelow(ssi, txnId, startTs, commitTs, nextTxnId);
      var conflict := ssiManager.ValidateAndCommitWithKeys(txnId, startTs, commitTs, []);
      hide Ssi.ReadWriteSet.HasDangerousStructure, Ssi.SSIManager.Refusal;
      r := None;
      if conflict.Some? {
        ConflictIsReported(ssi, ssiManager.activeTxns, txnId, startTs, commitTs, conflict.value);
        r := Some(SsiErrorToCommon(conflict.value));
      }
    }

    method ApplyWrites(writeSet: WriteSet)
      requires storage.Valid()
      modifies storage, storage.memtable
      ensures storage.Valid() && storage.contents == writeSet.ApplyTo(old(storage.contents))
    {
      ApplyPuts(writeSet.puts);
      ApplyDeletes(writeSet.deletes);
    }

    /** Validation by the transaction manager. */
    method Prepare(txn: Transaction, commitTs: nat) returns (ok: bool)
      requires TxnsOk() && Knows(txn) && !txn.isolation.IsReadOnly()
      modifies txn`commitTs
      ensures TxnsOk()
      ensures ok <==>
              !txn.isolation.Serializable? || ReadsStillCurrent(txnManager.committedTxns, old(txn.Snapshot()), commitTs)
      ensures txn.Snapshot() == if ok then old(txn.Snapshot()).(commitTs := Some(commitTs)) else old(txn.Snapshot())
      ensures View() == WithTxn(old(View()), txn.id, txn.Snapshot())
    {
      hide ReadsStillCurrent;
      ok := txnManager.PrepareCommit(txn, commitTs);
      OthersUnchanged(old(Snapshots(txns)), txns, txn);
      hide Unprepared, Snapshots, OwnIds;
    }

    method Store(txn: Transaction)
      requires storage.Valid() && Knows(txn)
      modifies storage, storage.memtable
      ensures storage.Valid() && View() == old(View()).(store := txn.writeSet.ApplyTo(old(View()).store))
    {
      hide MemTables.Storage.Valid, WriteSet.ApplyTo;
      ApplyWrites(txn.writeSet);
    }

    /** The end of a prepared transaction. */
    method Conclude(txn: Transaction) returns (ok: bool)
      requires TxnsOk() && Knows(txn) && !txn.isolation.IsReadOnly() && txn.commitTs.Some?
      modifies txn`state, txnManager
      ensures TxnsOk()
      ensures ok <==> old(txn.state).Open?
      ensures View() ==
              if ok then
                WithTxn(old(View()), txn.id, old(txn.Snapshot()).(state := Committed)).(
                  active := old(View()).active - {txn.id},
                  committed := old(View()).committed
                               + [CommittedWrites(txn.commitTs.value, txn.startTs, txn.writeSet.Keys())])
              else WithTxn(old(View()), txn.id, old(txn.Snapshot()))
    {
      hide Ssi.SSIManager.View, WriteSet.Keys;
      ok := txnManager.Commit(txn);
      OthersUnchanged(old(Snapshots(txns)), txns, txn);
      hide Unprepared, Snapshots, OwnIds;
    }

    /** The rest of a commit: validation by the transaction manager, the writes, and the end of the transaction. */
    method Finish(txn: Transaction, commitTs: nat) returns (r: Option<Error>)
      requires storage.Valid() && TxnsOk() && Knows(txn) && !txn.isolation.IsReadOnly()
      modifies txn`commitTs, txn`state, txnManager, storage, storage.memtable
      ensures storage.Valid()
      ensures TxnsOk()
      ensures View() == Finished(old(View()), txn.id, commitTs)
      ensures CommitAnswer(FinishStatus(old(View()), txn.id, commitTs), r)
    {
      hide MemTables.Storage.Valid, ReadsStillCurrent, TxnsOk, Ssi.SSIManager.View;
      hide WriteSet.ApplyTo, WriteSet.Keys, WithTxn, Finished;
      ghost var e := View();
      assert e.txns[txn.id] == txn.Snapshot() && e.committed == txnManager.committedTxns;
      hide View, Snapshots;
      FinishedInSteps(e, txn.id, commitTs);
      var ok := Prepare(txn, commitTs);
      if !ok {
        r := Some(TransactionConflict);
        return;
      }
      ok := StoreAndConclude(txn);
      r := if ok then None else Some(TransactionAborted);
    }

    /** The writes reach the storage before it turns out whether the transaction is open. */
    method StoreAndConclude(txn: Transaction) returns (ok: bool)
      requires storage.Valid() && TxnsOk() && Knows(txn) && !txn.isolation.IsReadOnly() && txn.commitTs.Some?
      modifies txn`state, txnManager, storage, storage.memtable
      ensures storage.Valid() && TxnsOk()
      ensures ok <==> old(txn.state).Open?
      ensures var t := old(txn.Snapshot());
              var stored := old(View()).(store := t.writeSet.ApplyTo(old(View()).store));
              View() ==
              if ok then
                WithTxn(stored, txn.id, t.(state := Committed)).(
                  active := stored.active - {txn.id},
                  committed := stored.committed
                               + [CommittedWrites(t.commitTs.value, t.startTs, t.writeSet.Keys())])
              else WithTxn(stored, txn.id, t)
    {
      hide MemTables.Storage.Valid, TxnsOk, View, Snapshots, WithTxn, WriteSet.ApplyTo, WriteSet.Keys;
      Store(txn);
      ok := Conclude(txn);
    }

    method CheckSsi(txn: Transaction, commitTs: nat) returns (r: Option<Error>)
      requires Valid() && Knows(txn) && commitTs !in ssiManager.committedTxns
      modifies ssiManager
      ensures Valid()
      ensures View() == old(View()).(ssi := SsiValidated(old(View()), txn.id, commitTs))
      ensures r.None? <==> SsiAgrees(old(View()), txn.id, commitTs)
      ensures r.Some? ==> CommitAnswer(SsiRefused, r)
      ensures r.Some? ==>
                SsiAnswer(old(View()).ssi, ssiManager.activeTxns, txn.id, txn.startTs, commitTs, r.value)
    {
      hide SsiOk, TxnsOk, MemTables.Storage.Valid, CommitAnswer, SsiAnswer, SsiState.Accepts, SsiState.Validate;
      hide Ssi.SSIManager.View;
      assert View().txns[txn.id] == txn.Snapshot();
      hide View, Snapshots;
      r := ValidateSsi(txn, commitTs);
    }

    method FinishCommit(txn: Transaction, commitTs: nat) returns (r: Option<Error>)
      requires Valid() && Knows(txn) && !txn.isolation.IsReadOnly()
      modifies txn`commitTs, txn`state, txnManager, storage, storage.memtable
      ensures Valid() && View() == Finished(old(View()), txn.id, commitTs)
      ensures CommitAnswer(FinishStatus(old(View()), txn.id, commitTs), r)
    {
      hide SsiOk, TxnsOk, View, MemTables.Storage.Valid, Finished, FinishStatus, CommitAnswer;
      r := Finish(txn, commitTs);
    }

    method CommitWriter(txn: Transaction, commitTs: nat) returns (r: Option<Error>)
      requires Valid() && Knows(txn) && commitTs !in ssiManager.committedTxns && !txn.isolation.IsReadOnly()
      modifies txn`commitTs, txn`state, txnManager, ssiManager, storage, storage.memtable
      ensures Valid() && View() == TxnState.Commit(old(View()), txn.id, commitTs)
      ensures CommitAnswer(StatusOfCommit(old(View()), txn.id, commitTs), r)
      ensures StatusOfCommit(old(View()), txn.id, commitTs).SsiRefused? && r.Some? ==>
                SsiAnswer(old(View()).ssi, ssiManager.activeTxns, txn.id, txn.startTs, commitTs, r.value)
    {
      hide SsiOk, TxnsOk, MemTables.Storage.Valid, Ssi.SSIManager.View;
      ghost var e := View();
      CommitIsFinish(e, txn.id, commitTs);
      assert e.txns[txn.id] == txn.Snapshot();
      hide Valid, View, TxnState.Commit, StatusOfCommit, Finished, FinishStatus, SsiAgrees, SsiValidated, CommitAnswer;
      hide SsiAnswer;
      r := CheckSsi(txn, commitTs);
      if r.None? {
        r := FinishCommit(txn, commitTs);
      }
    }

    /** Always refused: nothing ever gave the transaction a commit timestamp. */
    method CommitReadOnly(txn: Transaction) returns (r: Option<Error>)
      requires Valid() && Knows(txn) && txn.isolation.IsReadOnly()
      modifies txn`state, txnManager
      ensures Valid() && View() == old(View()) && r == Some(TransactionAborted)
    {
      hide SsiOk, MemTables.Storage.Valid, Ssi.SSIManager.View, OwnIds, Unprepared;
      assert Snapshots(txns)[txn.id] == txn.Snapshot();
      UnpreparedAt(Snapshots(txns), txn.id);
      var ok := txnManager.Commit(txn);
      r := if ok then None else Some(TransactionAborted);
    }

    method Commit(txn: Transaction, commitTs: nat) returns (r: Option<Error>)
      requires Valid() && Knows(txn) && commitTs !in ssiManager.committedTxns
      modifies txn`commitTs, txn`state, txnManager, ssiManager, storage, storage.memtable
      ensures Valid() && View() == TxnState.Commit(old(View()), txn.id, commitTs)
      ensures CommitAnswer(StatusOfCommit(old(View()), txn.id, commitTs), r)
      ensures StatusOfCommit(old(View()), txn.id, commitTs).SsiRefused? && r.Some? ==>
                SsiAnswer(old(View()).ssi, ssiManager.activeTxns, txn.id, txn.startTs, commitTs, r.value)
    {
      if txn.isolation.IsReadOnly() {
        r := CommitReadOnly(txn);
      } else {
        hide Valid, View, TxnState.Commit, StatusOfCommit, SsiAnswer;
        r := CommitWriter(txn, commitTs);
      }
    }
  }

  /**
   What the SSI manager's refusal is reported as: it does not know the transaction, a key was listed within
   a range that was read, both kinds of conflicts are noted and with different transactions, or neither.
   */
  ghost predicate SsiAnswer(ssi: SsiState.Ssi, after: map<TxnId, Ssi.ReadWriteSet>, id: TxnId, readTs: nat,
                            commitTs: nat, r: Error)
  {
    if id !in ssi.active then r == TransactionAborted
    else if SsiState.Phantom(ssi, ssi.active[id].readRanges, readTs, commitTs) then r == PhantomRead
    else
      && id in after
      && r == if after[id].inbound != [] && after[id].outbound != []
                 && forall i, j | 0 <= i < |after[id].inbound| && 0 <= j < |after[id].outbound| ::
                      after[id].inbound[i].fromTxn != after[id].outbound[j].toTxn
              then SerializableConflict else WriteSkew
  }

  lemma ConflictIsReported(ssi: SsiState.Ssi, after: map<TxnId, Ssi.ReadWriteSet>, id: TxnId, readTs: nat,
                           commitTs: nat, conflict: Ssi.SSIConflict)
    requires conflict == Ssi.TxnNotFound <==> id !in ssi.active
    requires id in ssi.active ==>
               && id in after
               && if SsiState.Phantom(ssi, ssi.active[id].readRanges, readTs, commitTs) then conflict.PhantomRead?
                  else after[id].inbound != [] && conflict == Ssi.SSIManager.Refusal(after[id])
    ensures SsiAnswer(ssi, after, id, readTs, commitTs, SsiErrorToCommon(conflict))
    ensures CommitAnswer(SsiRefused, Some(SsiErrorToCommon(conflict)))
  {
    hide SsiState.Phantom;
  }

  /** A failed lock request is reported as what it was: a timeout, a deadlock, an abort, or another conflict. */
  lemma LockErrorsKeepTheirKind(err: LockState.LockError)
    ensures LockErrorToCommon(err) == LockTimeout <==> err == LockState.Timeout
    ensures LockErrorToCommon(err) == Deadlock <==> err == LockState.Deadlocked
    ensures LockErrorToCommon(err) == TransactionAborted <==> err == LockState.TransactionAborted
    ensures err !in {LockState.Timeout, LockState.Deadlocked, LockState.TransactionAborted} <==>
            LockErrorToCommon(err) == LockConflict
  {
  }

  /** Which answers go with which end of a commit. */
  predicate CommitAnswer(status: CommitStatus, r: Option<Error>) {
    match status
    case Done => r.None?
    case SsiRefused => r.Some? && r.value in {WriteSkew, PhantomRead, SerializableConflict, TransactionAborted}
    case ReadConflict => r == Some(TransactionConflict)
    case _ => r == Some(TransactionAborted)
  }

  /** A tracked read is noted in the SSI manager and in the transaction. */
  lemma GetInSteps(hash: Hasher, e: Engine, id: TxnId, key: bytes)
    requires id in e.txns && e.txns[id].writeSet.Get(key).None?
    ensures var t := e.txns[id];
            TxnState.Get(hash, e, id, key).0 ==
            if t.isolation.Serializable? then
              WithTxn(e.(ssi := SsiState.RecordRead(hash, e.ssi, id, key)), id, t.(readSet := t.readSet + {key}))
            else e
  {
    hide SsiState.RecordRead;
  }

  lemma WriteInSteps(hash: Hasher, e: Engine, id: TxnId, key: bytes, value: Option<bytes>)
    requires id in e.txns && !e.txns[id].isolation.IsReadOnly()
    ensures var t := e.txns[id];
            var ssi := if t.isolation.Serializable? then SsiState.RecordWrite(hash, e.ssi, id, key) else e.ssi;
            Write(hash, e, id, key, value) ==
            WithTxn(e.(ssi := ssi), id, t.(writeSet := t.writeSet.Enter(key, value)))
  {
    hide SsiState.RecordWrite;
  }

  lemma GetAnswer(hash: Hasher, e: Engine, id: TxnId, key: bytes)
    requires id in e.txns
    ensures match e.txns[id].writeSet.Get(key)
            case Some(own) => TxnState.Get(hash, e, id, key) == (e, own)
            case None =>
              && TxnState.Get(hash, e, id, key).0.store == e.store
              && TxnState.Get(hash, e, id, key).1 == Lookup(e.store, key)
  {
    hide SsiState.RecordRead;
  }

  /** A commit is a validation by the SSI manager and the rest. */
  lemma CommitIsFinish(e: Engine, id: TxnId, commitTs: nat)
    requires id in e.txns && !e.txns[id].isolation.IsReadOnly()
    ensures var e' := e.(ssi := SsiValidated(e, id, commitTs));
            if SsiAgrees(e, id, commitTs) then
              && StatusOfCommit(e, id, commitTs) == FinishStatus(e', id, commitTs)
              && Commit(e, id, commitTs) == Finished(e', id, commitTs)
            else StatusOfCommit(e, id, commitTs) == SsiRefused && Commit(e, id, commitTs) == e'
  {
    hide ReadsStillCurrent, SsiAgrees, SsiValidated, Finished;
  }

  /** The rest of a commit: the timestamp, the writes, and the end of the transaction if it is open. */
  lemma FinishedInSteps(e: Engine, id: TxnId, commitTs: nat)
    requires id in e.txns
    ensures var t := e.txns[id];
            var t' := t.(commitTs := Some(commitTs));
            var prepared := WithTxn(e, id, t');
            var stored := prepared.(store := t.writeSet.ApplyTo(prepared.store));
            match FinishStatus(e, id, commitTs)
            case ReadConflict => Finished(e, id, commitTs) == WithTxn(e, id, t)
            case NotOpen => Finished(e, id, commitTs) == WithTxn(stored, id, t')
            case _ =>
              Finished(e, id, commitTs) ==
              WithTxn(stored, id, t'.(state := Committed)).(
                active := stored.active - {id},
                committed := stored.committed + [CommittedWrites(commitTs, t.startTs, t.writeSet.Keys())])
  {
    hide ReadsStillCurrent, WriteSet.ApplyTo, WriteSet.Keys;
    assert e.txns[id := e.txns[id]] == e.txns;
  }

  lemma SsiReadBelow(hash: Hasher, ssi: SsiState.Ssi, id: TxnId, key: bytes, n: nat)
    requires IdsBelow(ssi, n)
    ensures IdsBelow(SsiState.RecordRead(hash, ssi, id, key), n)
  {
  }

  lemma ValidateAnswer(ssi: SsiState.Ssi, id: TxnId, readTs: nat, commitTs: nat)
    ensures SsiState.Validate(ssi, id, readTs, commitTs, []).1 <==> SsiState.Accepts(ssi, id, readTs, commitTs)
  {
    hide SsiState.Doomed, SsiState.Phantom;
  }

  lemma SsiValidateBelow(ssi: SsiState.Ssi, id: TxnId, readTs: nat, commitTs: nat, n: nat)
    requires IdsBelow(ssi, n)
    ensures IdsBelow(SsiState.Validate(ssi, id, readTs, commitTs, []).0, n)
  {
    hide SsiState.Accepts, SsiState.Doomed;
  }

  lemma SsiWriteBelow(hash: Hasher, ssi: SsiState.Ssi, id: TxnId, key: bytes, n: nat)
    requires IdsBelow(ssi, n)
    ensures IdsBelow(SsiState.RecordWrite(hash, ssi, id, key), n)
  {
  }

  lemma SsiAbortBelow(ssi: SsiState.Ssi, id: TxnId, n: nat)
    requires IdsBelow(ssi, n)
    ensures IdsBelow(SsiState.Abort(ssi, id), n)
  {
  }
}
