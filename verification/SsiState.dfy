/**
 Commit validation of crabstash-lock/src/ssi.rs as functions on a value. Keys are known to the validator
 only by an arbitrary hash.
 */
module SsiState {
  import opened Bytes
  import opened Graph
  import opened LockModes

  type Hasher = bytes -> u64
  type KeyRange = (Bound, Bound)

  datatype CommittedTxn = CommittedTxn(startTs: nat, readSet: set<u64>, writeSet: set<u64>, writeKeys: seq<bytes>)

  /** An open transaction; `doomed` once validation has seen a conflict on one of its reads. */
  datatype Active = Active(readKeys: set<u64>, writeKeys: set<u64>, readRanges: seq<KeyRange>, doomed: bool)

  datatype Ssi = Ssi(
    committed: map<nat, CommittedTxn>,
    active: map<TxnId, Active>,
    startTs: map<TxnId, nat>,
    readOnly: set<TxnId>,
    watermark: nat)

  const NewActive := Active({}, {}, [], false)

  predicate KeyInRanges(key: bytes, ranges: seq<KeyRange>) {
    exists i :: 0 <= i < |ranges| && InRange(key, ranges[i].0, ranges[i].1)
  }

  // ---------------------------------------------------------------- validation

  predicate WriterConflicts(c: CommittedTxn, ts: nat, readHashes: set<u64>, readTs: nat, commitTs: nat) {
    ts > readTs && c.startTs < commitTs && c.writeSet * readHashes != {}
  }

  /** A transaction committed after `readTs` and begun before `commitTs` wrote a hash that was read. */
  ghost predicate ReadConflict(s: Ssi, readHashes: set<u64>, readTs: nat, commitTs: nat) {
    exists ts :: ts in s.committed && WriterConflicts(s.committed[ts], ts, readHashes, readTs, commitTs)
  }

  predicate PhantomIn(c: CommittedTxn, ts: nat, ranges: seq<KeyRange>, readTs: nat, commitTs: nat) {
    readTs < ts < commitTs && exists i :: 0 <= i < |c.writeKeys| && KeyInRanges(c.writeKeys[i], ranges)
  }

  /** A transaction committed between `readTs` and `commitTs` listed a key inside a range that was read. */
  ghost predicate Phantom(s: Ssi, ranges: seq<KeyRange>, readTs: nat, commitTs: nat) {
    exists ts :: ts in s.committed && PhantomIn(s.committed[ts], ts, ranges, readTs, commitTs)
  }

  ghost predicate Doomed(s: Ssi, txnId: TxnId, readTs: nat, commitTs: nat)
    requires txnId in s.active
  {
    s.active[txnId].doomed || ReadConflict(s, s.active[txnId].readKeys, readTs, commitTs)
  }

  /** Whether `validate_and_commit_with_keys` answers Ok. */
  ghost predicate Accepts(s: Ssi, txnId: TxnId, readTs: nat, commitTs: nat) {
    && txnId in s.active
    && !Phantom(s, s.active[txnId].readRanges, readTs, commitTs)
    && !Doomed(s, txnId, readTs, commitTs)
  }

  function StartOf(s: Ssi, txnId: TxnId, readTs: nat): nat {
    if txnId in s.startTs then s.startTs[txnId] else readTs
  }

  ghost function Validate(s: Ssi, txnId: TxnId, readTs: nat, commitTs: nat, keys: seq<bytes>): (Ssi, bool) {
    if txnId !in s.active then (s, false)
    else if !Accepts(s, txnId, readTs, commitTs) then
      (s.(active := s.active[txnId := s.active[txnId].(doomed := Doomed(s, txnId, readTs, commitTs))]), false)
    else
      var t := s.active[txnId];
      (s.(committed := s.committed[commitTs := CommittedTxn(StartOf(s, txnId, readTs), t.readKeys, t.writeKeys, keys)],
          active := s.active - {txnId},
          startTs := s.startTs - {txnId}), true)
  }

  // ---------------------------------------------------------------- the other operations

  function Begin(s: Ssi, txnId: TxnId, startTs: nat): Ssi {
    s.(active := s.active[txnId := NewActive], startTs := s.startTs[txnId := startTs])
  }

  function BeginReadOnly(s: Ssi, txnId: TxnId, startTs: nat): Ssi {
    s.(startTs := s.startTs[txnId := startTs], readOnly := s.readOnly + {txnId})
  }

  function RecordRead(hash: Hasher, s: Ssi, txnId: TxnId, key: bytes): Ssi {
    if txnId !in s.active then s
    else s.(active := s.active[txnId := s.active[txnId].(readKeys := s.active[txnId].readKeys + {hash(key)})])
  }

  function RecordWrite(hash: Hasher, s: Ssi, txnId: TxnId, key: bytes): Ssi {
    if txnId !in s.active then s
    else s.(active := s.active[txnId := s.active[txnId].(writeKeys := s.active[txnId].writeKeys + {hash(key)})])
  }

  function RecordRangeRead(s: Ssi, txnId: TxnId, start: Bound, end: Bound): Ssi {
    if txnId !in s.active then s
    else s.(active := s.active[txnId := s.active[txnId].(readRanges := s.active[txnId].readRanges + [(start, end)])])
  }

  function Abort(s: Ssi, txnId: TxnId): Ssi {
    s.(active := s.active - {txnId}, startTs := s.startTs - {txnId}, readOnly := s.readOnly - {txnId})
  }

  function CommitReadOnly(s: Ssi, txnId: TxnId): Ssi {
    s.(startTs := s.startTs - {txnId}, readOnly := s.readOnly - {txnId})
  }

  function AdvanceWatermark(s: Ssi, w: nat): Ssi {
    if w <= s.watermark then s
    else s.(watermark := w, committed := map ts | ts in s.committed && ts >= w :: s.committed[ts])
  }

  /** `w` is at most the smallest start timestamp of an open transaction. */
  predicate BelowAllStarts(s: Ssi, w: nat) {
    forall t | t in s.startTs :: w <= s.startTs[t]
  }
}
