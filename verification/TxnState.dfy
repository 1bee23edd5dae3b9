/**
 Transactions as values: the write set of crabstash-txn/src/transaction.rs, the transaction manager,
 and each operation of the engine in mvcc.rs as one function on the whole state.
 */
module TxnState {
  import opened Bytes
  import opened Graph
  import SsiState

  type Hasher = SsiState.Hasher

  datatype IsolationLevel = Snapshot | Serializable | SerializableReadOnly | SerializableDeferrable {
    predicate IsSerializable() {
      !Snapshot?
    }

    predicate IsReadOnly() {
      SerializableReadOnly? || SerializableDeferrable?
    }

    predicate IsDeferrable() {
      SerializableDeferrable?
    }
  }

  datatype TransactionState = Open | Committed | Aborted

  type Store = map<bytes, bytes>

  function Lookup(store: Store, key: bytes): Option<bytes> {
    if key in store then Some(store[key]) else None
  }

  // ---------------------------------------------------------------- write sets

  datatype WriteSet = WriteSet(puts: map<bytes, bytes>, deletes: set<bytes>) {
    predicate Disjoint() {
      puts.Keys !! deletes
    }

    function Put(key: bytes, value: bytes): (w: WriteSet)
      ensures Disjoint() ==> w.Disjoint()
    {
      WriteSet(puts[key := value], deletes - {key})
    }

    function Delete(key: bytes): (w: WriteSet)
      ensures Disjoint() ==> w.Disjoint()
    {
      WriteSet(puts - {key}, deletes + {key})
    }

    /** A put, or a deletion for `None`. */
    function Enter(key: bytes, value: Option<bytes>): WriteSet {
      match value case Some(v) => Put(key, v) case None => Delete(key)
    }

    /** `None` when the key was not written here; `Some(None)` when it was deleted. */
    function Get(key: bytes): Option<Option<bytes>> {
      if key in deletes then Some(None)
      else if key in puts then Some(Some(puts[key]))
      else None
    }

    function Keys(): set<bytes> {
      puts.Keys + deletes
    }

    /** What a store holds after the writes. */
    function ApplyTo(store: Store): Store {
      (store + puts) - deletes
    }
  }

  const NoWrites := WriteSet(map[], {})

  /** A read inside a transaction: its own writes first, then the store. */
  function ReadThrough(w: WriteSet, store: Store, key: bytes): Option<bytes> {
    match w.Get(key)
    case Some(own) => own
    case None => Lookup(store, key)
  }

  /** Reading through a write set is reading what applying it will leave. */
  lemma ReadThroughIsApplied(w: WriteSet, store: Store, key: bytes)
    ensures ReadThrough(w, store, key) == Lookup(w.ApplyTo(store), key)
  {
  }

  // ---------------------------------------------------------------- the state

  datatype Txn = Txn(
    startTs: nat,
    commitTs: Option<nat>,
    isolation: IsolationLevel,
    state: TransactionState,
    writeSet: WriteSet,
    readSet: set<bytes>)

  /** What the transaction manager remembers of a commit. */
  datatype CommittedWrites = CommittedWrites(commitTs: nat, startTs: nat, keys: set<bytes>)

  datatype Engine = Engine(
    store: Store,
    txns: map<TxnId, Txn>,
    active: set<TxnId>,
    committed: seq<CommittedWrites>,
    ssi: SsiState.Ssi)

  const NewEngine := Engine(map[], map[], {}, [], SsiState.Ssi(map[], map[], map[], {}, 0))

  function WithTxn(e: Engine, id: TxnId, t: Txn): Engine {
    e.(txns := e.txns[id := t])
  }

  function SsiBegun(ssi: SsiState.Ssi, id: TxnId, startTs: nat, isolation: IsolationLevel): SsiState.Ssi {
    if !isolation.IsSerializable() then ssi
    else if isolation.IsReadOnly() then SsiState.BeginReadOnly(ssi, id, startTs)
    else SsiState.Begin(ssi, id, startTs)
  }

  function Begin(e: Engine, id: TxnId, startTs: nat, isolation: IsolationLevel): Engine {
    e.(txns := e.txns[id := Txn(startTs, None, isolation, Open, NoWrites, {})],
       active := e.active + {id},
       ssi := SsiBegun(e.ssi, id, startTs, isolation))
  }

  function Get(hash: Hasher, e: Engine, id: TxnId, key: bytes): (Engine, Option<bytes>)
    requires id in e.txns
  {
    var t := e.txns[id];
    match t.writeSet.Get(key)
    case Some(own) => (e, own)
    case None =>
      if t.isolation.Serializable? then
        (WithTxn(e, id, t.(readSet := t.readSet + {key})).(ssi := SsiState.RecordRead(hash, e.ssi, id, key)),
         Lookup(e.store, key))
      else (e, Lookup(e.store, key))
  }

  /** `put` and `delete` once the lock is granted; a read-only transaction is refused before that. */
  function Write(hash: Hasher, e: Engine, id: TxnId, key: bytes, value: Option<bytes>): Engine
    requires id in e.txns && !e.txns[id].isolation.IsReadOnly()
  {
    var t := e.txns[id];
    WithTxn(e, id, t.(writeSet := t.writeSet.Enter(key, value))).(
      ssi := if t.isolation.Serializable? then SsiState.RecordWrite(hash, e.ssi, id, key) else e.ssi)
  }

  /** The answer of `validate_serializable`. */
  predicate ReadsStillCurrent(committed: seq<CommittedWrites>, t: Txn, commitTs: nat) {
    forall i :: 0 <= i < |committed| && committed[i].commitTs > t.startTs && committed[i].startTs < commitTs ==>
      committed[i].keys * t.readSet == {}
  }

  /** How a commit ends: the first check that fails, or `Done`. */
  datatype CommitStatus = ReadOnlyRefused | SsiRefused | ReadConflict | NotOpen | Done

  /** The SSI manager agrees, if it is asked. */
  ghost predicate SsiAgrees(e: Engine, id: TxnId, commitTs: nat)
    requires id in e.txns
  {
    e.txns[id].isolation.Serializable? ==> SsiState.Accepts(e.ssi, id, e.txns[id].startTs, commitTs)
  }

  ghost function SsiValidated(e: Engine, id: TxnId, commitTs: nat): SsiState.Ssi
    requires id in e.txns
  {
    if e.txns[id].isolation.Serializable? then SsiState.Validate(e.ssi, id, e.txns[id].startTs, commitTs, []).0
    else e.ssi
  }

  /** How a commit ends once the SSI manager has agreed. */
  function FinishStatus(e: Engine, id: TxnId, commitTs: nat): CommitStatus
    requires id in e.txns
  {
    var t := e.txns[id];
    if t.isolation.Serializable? && !ReadsStillCurrent(e.committed, t, commitTs) then ReadConflict
    else if !t.state.Open? then NotOpen
    else Done
  }

  ghost function StatusOfCommit(e: Engine, id: TxnId, commitTs: nat): CommitStatus
    requires id in e.txns
  {
    if e.txns[id].isolation.IsReadOnly() then ReadOnlyRefused
    else if !SsiAgrees(e, id, commitTs) then SsiRefused
    else FinishStatus(e, id, commitTs)
  }

  /** The rest of a commit: the writes go to the store before it turns out whether the transaction is open. */
  function Finished(e: Engine, id: TxnId, commitTs: nat): Engine
    requires id in e.txns
  {
    var t := e.txns[id];
    match FinishStatus(e, id, commitTs)
    case ReadConflict => e
    case NotOpen => WithTxn(e, id, t.(commitTs := Some(commitTs))).(store := t.writeSet.ApplyTo(e.store))
    case _ =>
      WithTxn(e, id, t.(commitTs := Some(commitTs), state := Committed)).(
        store := t.writeSet.ApplyTo(e.store),
        active := e.active - {id},
        committed := e.committed + [CommittedWrites(commitTs, t.startTs, t.writeSet.Keys())])
  }

  /** A read-only transaction never gets a commit timestamp, so its commit is refused as not open. */
  ghost function Commit(e: Engine, id: TxnId, commitTs: nat): Engine
    requires id in e.txns
  {
    if e.txns[id].isolation.IsReadOnly() then e
    else
      var e' := e.(ssi := SsiValidated(e, id, commitTs));
      if SsiAgrees(e, id, commitTs) then Finished(e', id, commitTs) else e'
  }

  function Abort(e: Engine, id: TxnId): Engine
    requires id in e.txns
  {
    WithTxn(e, id, e.txns[id].(state := Aborted)).(
      active := e.active - {id},
      ssi := if e.txns[id].isolation.IsSerializable() then SsiState.Abort(e.ssi, id) else e.ssi)
  }

  function KeepAfter(committed: seq<CommittedWrites>, watermark: nat): (r: seq<CommittedWrites>)
    ensures forall c :: c in r <==> c in committed && c.commitTs > watermark
  {
    if committed == [] then []
    else
      var rest := KeepAfter(committed[..|committed| - 1], watermark);
      var last := committed[|committed| - 1];
      if last.commitTs > watermark then rest + [last] else rest
  }

  function Gc(e: Engine, watermark: nat): Engine {
    e.(committed := KeepAfter(e.committed, watermark))
  }
}
