/**
 What the engine of crabstash-txn/src/mvcc.rs answers, said from the sequence of operations alone: which
 transactions are open, what each reads, which commits succeed, and what is stored. Nothing here looks at
 write sets, read sets, commit records or the SSI manager; the lemmas show that these come to the same.
 */
module Answers {
  import opened Bytes
  import opened Graph
  import opened TxnState
  import opened TxnRuns
  import SsiState

  // ---------------------------------------------------------------- single transactions

  /** What the transaction was begun with. */
  function Asked(ops: seq<Op>, id: TxnId): Option<Request> {
    if ops == [] then None
    else
      var op := ops[|ops| - 1];
      if op.OpBegin? && op.id == id then Some(Request(op.startTs, op.isolation)) else Asked(ops[..|ops| - 1], id)
  }

  /** The transaction was begun as one that may write. */
  predicate AsksToWrite(ops: seq<Op>, id: TxnId) {
    Asked(ops, id).Some? && Asked(ops, id).value.isolation in {Snapshot, Serializable}
  }

  predicate AsksForSerializable(ops: seq<Op>, id: TxnId) {
    Asked(ops, id).Some? && Asked(ops, id).value.isolation == Serializable
  }

  /** The last put or delete of the key by the transaction that went through: a value, or nothing. */
  function OwnWrite(ops: seq<Op>, id: TxnId, key: bytes): Option<Option<bytes>> {
    if ops == [] then None
    else
      var before, op := ops[..|ops| - 1], ops[|ops| - 1];
      if op.OpPut? && op.id == id && op.key == key && op.locked && AsksToWrite(before, id) then Some(Some(op.value))
      else if op.OpDelete? && op.id == id && op.key == key && op.locked && AsksToWrite(before, id) then Some(None)
      else OwnWrite(before, id, key)
  }

  predicate HasWritten(ops: seq<Op>, id: TxnId, key: bytes) {
    OwnWrite(ops, id, key).Some?
  }

  /** The transaction got the key when it had not written it. */
  predicate HasRead(ops: seq<Op>, id: TxnId, key: bytes) {
    ops != []
    && var before, op := ops[..|ops| - 1], ops[|ops| - 1];
       || HasRead(before, id, key)
       || (op == OpGet(id, key) && Asked(before, id).Some? && !HasWritten(before, id, key))
  }

  // ---------------------------------------------------------------- commits

  /** The transaction was begun, and neither aborted nor committed since. */
  ghost predicate Live(hash: Hasher, ops: seq<Op>, id: TxnId)
    decreases |ops|, 0
  {
    ops != []
    && var before, op := ops[..|ops| - 1], ops[|ops| - 1];
       if op.OpBegin? && op.id == id then true
       else if op.OpAbort? && op.id == id then false
       else if op.OpCommit? && op.id == id then Live(hash, before, id) && !Commits(hash, before, id)
       else Live(hash, before, id)
  }

  /** A commit after `ts` wrote the key. */
  ghost predicate WrittenSince(hash: Hasher, ops: seq<Op>, key: bytes, ts: nat)
    decreases |ops|, 0
  {
    ops != []
    && var before, op := ops[..|ops| - 1], ops[|ops| - 1];
       || WrittenSince(hash, before, key, ts)
       || (op.OpCommit? && op.commitTs > ts && Commits(hash, before, op.id) && HasWritten(before, op.id, key))
  }

  /** A commit of the transaction has passed the first of the two validations, whatever became of it. */
  ghost predicate HasPassed(hash: Hasher, ops: seq<Op>, id: TxnId)
    decreases |ops|, 0
  {
    ops != []
    && var before, op := ops[..|ops| - 1], ops[|ops| - 1];
       HasPassed(hash, before, id) || (op.OpCommit? && op.id == id && Passes(hash, before, id))
  }

  /** After `ts`, a transaction that wrote a key of this hash has passed the first validation. */
  ghost predicate HashWrittenSince(hash: Hasher, ops: seq<Op>, x: u64, ts: nat)
    decreases |ops|, 0
  {
    ops != []
    && var before, op := ops[..|ops| - 1], ops[|ops| - 1];
       || HashWrittenSince(hash, before, x, ts)
       || (op.OpCommit? && op.commitTs > ts && Passes(hash, before, op.id)
           && exists key :: HasWritten(before, op.id, key) && hash(key) == x)
  }

  /**
   The first validation of a Serializable transaction, by hashes: none of its keys hashes like one that
   was written since its start by another that passed.
   */
  ghost predicate Passes(hash: Hasher, ops: seq<Op>, id: TxnId)
    decreases |ops|, 1
  {
    && Live(hash, ops, id) && AsksForSerializable(ops, id) && !HasPassed(hash, ops, id)
    && forall key | HasRead(ops, id, key) :: !HashWrittenSince(hash, ops, hash(key), Asked(ops, id).value.startTs)
  }

  /**
   A commit of the transaction succeeds: it is open, and Snapshot, or Serializable with no key it read
   written by a commit since its start.
   */
  ghost predicate Commits(hash: Hasher, ops: seq<Op>, id: TxnId)
    decreases |ops|, 2
  {
    && Live(hash, ops, id) && AsksToWrite(ops, id)
    && (AsksForSerializable(ops, id) ==>
          && Passes(hash, ops, id)
          && forall key | HasRead(ops, id, key) :: !WrittenSince(hash, ops, key, Asked(ops, id).value.startTs))
  }

  /** What is stored under the key: what the last successful commit that wrote it left. */
  ghost function Stored(hash: Hasher, ops: seq<Op>, key: bytes): Option<bytes> {
    if ops == [] then None
    else
      var before, op := ops[..|ops| - 1], ops[|ops| - 1];
      if op.OpCommit? && Commits(hash, before, op.id) && HasWritten(before, op.id, key)
      then OwnWrite(before, op.id, key).value else Stored(hash, before, key)
  }

  /** What a get of the key answers. */
  ghost function Answer(hash: Hasher, ops: seq<Op>, id: TxnId, key: bytes): Option<bytes> {
    match OwnWrite(ops, id, key)
    case Some(own) => own
    case None => Stored(hash, ops, key)
  }

  // ---------------------------------------------------------------- the engine agrees

  predicate AskedMirrors(ops: seq<Op>, txns: map<TxnId, Txn>) {
    && (forall id :: id in txns <==> Asked(ops, id).Some?)
    && (forall id | id in txns :: Asked(ops, id) == Some(Request(txns[id].startTs, txns[id].isolation)))
  }

  ghost predicate WritesMirror(ops: seq<Op>, txns: map<TxnId, Txn>) {
    forall id, key | id in txns :: txns[id].writeSet.Get(key) == OwnWrite(ops, id, key)
  }

  ghost predicate ReadsMirror(ops: seq<Op>, txns: map<TxnId, Txn>) {
    forall id, key | id in txns && txns[id].isolation.Serializable? ::
      key in txns[id].readSet <==> HasRead(ops, id, key)
  }

  ghost predicate LiveMirrors(hash: Hasher, ops: seq<Op>, txns: map<TxnId, Txn>) {
    forall id | id in txns :: txns[id].state.Open? <==> Live(hash, ops, id)
  }

  ghost predicate StoreMirrors(hash: Hasher, ops: seq<Op>, store: Store) {
    forall key :: Lookup(store, key) == Stored(hash, ops, key)
  }

  ghost predicate LogMirrors(hash: Hasher, ops: seq<Op>, log: seq<LogEntry>) {
    forall key, ts: nat :: Overwritten(log, key, ts) <==> WrittenSince(hash, ops, key, ts)
  }

  function Hashes(hash: Hasher, keys: set<bytes>): set<u64> {
    set k | k in keys :: hash(k)
  }

  /** The SSI manager has an open transaction that has not passed, with the hashes of what it read and wrote. */
  predicate Tracked(hash: Hasher, ssi: SsiState.Ssi, id: TxnId, t: Txn) {
    && id in ssi.active && ssi.active[id].readRanges == []
    && ssi.active[id].readKeys == Hashes(hash, t.readSet)
    && ssi.active[id].writeKeys == Hashes(hash, t.writeSet.Keys())
    && id in ssi.startTs && ssi.startTs[id] == t.startTs
  }

  ghost predicate MarkHasCause(hash: Hasher, ops: seq<Op>, ssi: SsiState.Ssi, id: TxnId, t: Txn) {
    id in ssi.active && ssi.active[id].doomed ==>
      exists key :: key in t.readSet && HashWrittenSince(hash, ops, hash(key), t.startTs)
  }

  ghost predicate ActiveMirrors(hash: Hasher, ops: seq<Op>, e: Engine) {
    forall id | id in e.txns && e.txns[id].isolation.Serializable? ::
      && (id in e.ssi.active <==> Live(hash, ops, id) && !HasPassed(hash, ops, id))
      && (id in e.ssi.active ==> Tracked(hash, e.ssi, id, e.txns[id]))
      && MarkHasCause(hash, ops, e.ssi, id, e.txns[id])
  }

  /** Of the others the SSI manager has the start of those that only read, until they are aborted. */
  ghost predicate StartKnown(hash: Hasher, ops: seq<Op>, ssi: SsiState.Ssi, id: TxnId, t: Txn) {
    var only := t.isolation in {SerializableReadOnly, SerializableDeferrable} && Live(hash, ops, id);
    && (id in ssi.startTs <==> only) && (id in ssi.readOnly <==> only)
    && (only ==> ssi.startTs[id] == t.startTs)
  }

  ghost predicate StartsMirror(hash: Hasher, ops: seq<Op>, e: Engine) {
    && (forall id | id in e.ssi.startTs || id in e.ssi.readOnly :: id in e.txns)
    && forall id | id in e.txns && !e.txns[id].isolation.Serializable? :: StartKnown(hash, ops, e.ssi, id, e.txns[id])
  }

  predicate CommittedBefore(committed: map<nat, SsiState.CommittedTxn>, clock: nat) {
    forall ts | ts in committed :: ts <= clock && committed[ts].startTs <= clock && committed[ts].writeKeys == []
  }

  predicate HashCommittedSince(committed: map<nat, SsiState.CommittedTxn>, x: u64, ts: nat) {
    exists c | c in committed :: c > ts && x in committed[c].writeSet
  }

  ghost predicate CommittedMirrors(hash: Hasher, ops: seq<Op>, committed: map<nat, SsiState.CommittedTxn>, clock: nat) {
    && CommittedBefore(committed, clock)
    && forall x, ts: nat :: HashCommittedSince(committed, x, ts) <==> HashWrittenSince(hash, ops, x, ts)
  }

  ghost predicate Mirrors(hash: Hasher, ops: seq<Op>, h: History) {
    && AskedMirrors(ops, h.engine.txns) && WritesMirror(ops, h.engine.txns) && ReadsMirror(ops, h.engine.txns)
    && LiveMirrors(hash, ops, h.engine.txns) && StoreMirrors(hash, ops, h.engine.store)
    && LogMirrors(hash, ops, h.log)
    && ActiveMirrors(hash, ops, h.engine) && StartsMirror(hash, ops, h.engine)
    && CommittedMirrors(hash, ops, h.engine.ssi.committed, h.clock)
  }

  // ---------------------------------------------------------------- how a commit ends

  lemma SharedHash(hash: Hasher, committed: map<nat, SsiState.CommittedTxn>, keys: set<bytes>, ts: nat)
    ensures (exists c | c in committed :: c > ts && committed[c].writeSet * Hashes(hash, keys) != {}) <==>
            exists key :: key in keys && HashCommittedSince(committed, hash(key), ts)
  {
    if c :| c in committed && c > ts && committed[c].writeSet * Hashes(hash, keys) != {} {
      var x :| x in committed[c].writeSet * Hashes(hash, keys);
      var key :| key in keys && hash(key) == x;
      assert HashCommittedSince(committed, hash(key), ts);
    }
    if key :| key in keys && HashCommittedSince(committed, hash(key), ts) {
      var c :| c in committed && c > ts && hash(key) in committed[c].writeSet;
      assert hash(key) in committed[c].writeSet * Hashes(hash, keys);
    }
  }

  /** What the validator answers for a transaction it tracks. */
  lemma TrackedAnswer(hash: Hasher, ssi: SsiState.Ssi, id: TxnId, t: Txn, commitTs: nat, clock: nat)
    requires Tracked(hash, ssi, id, t) && CommittedBefore(ssi.committed, clock) && clock < commitTs
    ensures var conflict := exists key :: key in t.readSet && HashCommittedSince(ssi.committed, hash(key), t.startTs);
            && (SsiState.Doomed(ssi, id, t.startTs, commitTs) <==> ssi.active[id].doomed || conflict)
            && (SsiState.Accepts(ssi, id, t.startTs, commitTs) <==> !ssi.active[id].doomed && !conflict)
  {
    hide Hashes, HashCommittedSince;
    SharedHash(hash, ssi.committed, t.readSet, t.startTs);
    forall c | c in ssi.committed
      ensures SsiState.WriterConflicts(ssi.committed[c], c, ssi.active[id].readKeys, t.startTs, commitTs) <==>
              c > t.startTs && ssi.committed[c].writeSet * Hashes(hash, t.readSet) != {}
    {
    }
  }

  /** The first validation. */
  lemma AcceptsMirrors(hash: Hasher, ops: seq<Op>, h: History, id: TxnId, commitTs: nat)
    requires Mirrors(hash, ops, h) && id in h.engine.txns && h.engine.txns[id].isolation.Serializable?
    requires commitTs > h.clock
    ensures SsiState.Accepts(h.engine.ssi, id, h.engine.txns[id].startTs, commitTs) <==> Passes(hash, ops, id)
    ensures id in h.engine.ssi.active && SsiState.Doomed(h.engine.ssi, id, h.engine.txns[id].startTs, commitTs) ==>
              exists key :: key in h.engine.txns[id].readSet
                            && HashWrittenSince(hash, ops, hash(key), h.engine.txns[id].startTs)
  {
    hide WritesMirror, StoreMirrors, LogMirrors, LiveMirrors, Tracked, Asked, HasRead, Live, HasPassed;
    hide SsiState.Doomed, SsiState.Phantom, HashWrittenSince, HashCommittedSince, CommittedBefore;
    if id in h.engine.ssi.active {
      TrackedAnswer(hash, h.engine.ssi, id, h.engine.txns[id], commitTs, h.clock);
    }
  }

  /** The second validation. */
  lemma CurrentMirrors(hash: Hasher, ops: seq<Op>, h: History, id: TxnId, commitTs: nat)
    requires TxnRuns.Inv(h) && Mirrors(hash, ops, h) && ToValidate(h.engine, id) && commitTs > h.clock
    ensures ReadsStillCurrent(h.engine.committed, h.engine.txns[id], commitTs) <==>
            forall key | HasRead(ops, id, key) :: !WrittenSince(hash, ops, key, h.engine.txns[id].startTs)
  {
    hide TxnRuns.Inv, Mirrors, ReadsStillCurrent;
    ValidationIsLogged(h, id, commitTs);
    NoneOverwritten(h.log, h.engine.txns[id].readSet, h.engine.txns[id].startTs);
    KeysMirror(hash, ops, h, id);
  }

  lemma NoneOverwritten(log: seq<LogEntry>, keys: set<bytes>, ts: nat)
    ensures (forall i :: 0 <= i < |log| && log[i].commitTs > ts ==> WritesOf(log[i].program).Keys() * keys == {}) <==>
            forall key | key in keys :: !Overwritten(log, key, ts)
  {
    hide WritesOf;
    if forall key | key in keys :: !Overwritten(log, key, ts) {
      forall i | 0 <= i < |log| && log[i].commitTs > ts ensures WritesOf(log[i].program).Keys() * keys == {} {
        assert forall key | key in WritesOf(log[i].program).Keys() :: Overwritten(log, key, ts);
      }
    } else {
      var key :| key in keys && Overwritten(log, key, ts);
      var i :| 0 <= i < |log| && log[i].commitTs > ts && key in WritesOf(log[i].program).Keys();
      assert key in WritesOf(log[i].program).Keys() * keys;
    }
  }

  lemma KeysMirror(hash: Hasher, ops: seq<Op>, h: History, id: TxnId)
    requires Mirrors(hash, ops, h) && ToValidate(h.engine, id)
    ensures (forall key | key in h.engine.txns[id].readSet :: !Overwritten(h.log, key, h.engine.txns[id].startTs)) <==>
            forall key | HasRead(ops, id, key) :: !WrittenSince(hash, ops, key, h.engine.txns[id].startTs)
  {
    hide WritesMirror, StoreMirrors, ActiveMirrors, CommittedMirrors, LiveMirrors;
    var t := h.engine.txns[id];
    if forall key | key in t.readSet :: !Overwritten(h.log, key, t.startTs) {
      forall key | HasRead(ops, id, key) ensures !WrittenSince(hash, ops, key, t.startTs) {
        assert key in t.readSet;
        assert !Overwritten(h.log, key, t.startTs);
      }
    } else {
      var key :| key in t.readSet && Overwritten(h.log, key, t.startTs);
      assert HasRead(ops, id, key);
      assert WrittenSince(hash, ops, key, t.startTs);
      assert exists key :: HasRead(ops, id, key) && WrittenSince(hash, ops, key, t.startTs);
    }
  }

  lemma CommitsMeans(hash: Hasher, ops: seq<Op>, id: TxnId, ts: nat)
    requires AsksForSerializable(ops, id) && Asked(ops, id).value.startTs == ts
    ensures Commits(hash, ops, id) <==>
            Passes(hash, ops, id) && forall key | HasRead(ops, id, key) :: !WrittenSince(hash, ops, key, ts)
  {
    if Commits(hash, ops, id) {
      forall key | HasRead(ops, id, key) ensures !WrittenSince(hash, ops, key, ts) {
      }
    } else if Passes(hash, ops, id) {
      assert Live(hash, ops, id);
      var k :| HasRead(ops, id, k) && WrittenSince(hash, ops, k, Asked(ops, id).value.startTs);
      assert exists key :: HasRead(ops, id, key) && WrittenSince(hash, ops, key, ts);
    }
  }

  /** A commit is done exactly when the operations so far let it. */
  lemma StatusMirrors(hash: Hasher, ops: seq<Op>, h: History, id: TxnId, commitTs: nat)
    requires TxnRuns.Inv(h) && Mirrors(hash, ops, h) && id in h.engine.txns && commitTs > h.clock
    ensures StatusOfCommit(h.engine, id, commitTs).Done? <==> Commits(hash, ops, id)
    ensures h.engine.txns[id].isolation.Serializable? ==> (SsiAgrees(h.engine, id, commitTs) <==> Passes(hash, ops, id))
  {
    hide TxnRuns.Inv, ReadsStillCurrent, SsiState.Accepts, WritesMirror, ReadsMirror, StoreMirrors, LogMirrors;
    hide ActiveMirrors, CommittedMirrors, Asked;
    var t := h.engine.txns[id];
    assert Asked(ops, id) == Some(Request(t.startTs, t.isolation));
    assert t.state.Open? <==> Live(hash, ops, id);
    hide Mirrors, Live;
    if t.isolation.Serializable? {
      CommitsMeans(hash, ops, id, t.startTs);
      AcceptsMirrors(hash, ops, h, id, commitTs);
      if t.state.Open? {
        CurrentMirrors(hash, ops, h, id, commitTs);
      }
    }
  }

  // ---------------------------------------------------------------- one operation more

  lemma AskedMore(ops: seq<Op>, op: Op, id: TxnId)
    ensures Asked(ops + [op], id) ==
            if op.OpBegin? && op.id == id then Some(Request(op.startTs, op.isolation)) else Asked(ops, id)
  {
    assert (ops + [op])[..|ops|] == ops;
  }

  lemma OwnWriteMore(ops: seq<Op>, op: Op, id: TxnId, key: bytes)
    ensures OwnWrite(ops + [op], id, key) ==
            if op.OpPut? && op.id == id && op.key == key && op.locked && AsksToWrite(ops, id) then Some(Some(op.value))
            else if op.OpDelete? && op.id == id && op.key == key && op.locked && AsksToWrite(ops, id) then Some(None)
            else OwnWrite(ops, id, key)
  {
    assert (ops + [op])[..|ops|] == ops;
  }

  lemma HasReadMore(ops: seq<Op>, op: Op, id: TxnId, key: bytes)
    ensures HasRead(ops + [op], id, key) <==>
            HasRead(ops, id, key) || (op == OpGet(id, key) && Asked(ops, id).Some? && !HasWritten(ops, id, key))
  {
    assert (ops + [op])[..|ops|] == ops;
  }

  lemma LiveMore(hash: Hasher, ops: seq<Op>, op: Op, id: TxnId)
    ensures Live(hash, ops + [op], id) <==>
            if op.OpBegin? && op.id == id then true
            else Live(hash, ops, id) && !(op.OpAbort? && op.id == id)
                 && !(op.OpCommit? && op.id == id && Commits(hash, ops, id))
  {
    hide Commits;
    assert (ops + [op])[..|ops|] == ops;
  }

  lemma HasPassedMore(hash: Hasher, ops: seq<Op>, op: Op, id: TxnId)
    ensures HasPassed(hash, ops + [op], id) <==>
            HasPassed(hash, ops, id) || (op.OpCommit? && op.id == id && Passes(hash, ops, id))
  {
    hide Passes;
    assert (ops + [op])[..|ops|] == ops;
  }

  lemma WrittenMore(hash: Hasher, ops: seq<Op>, op: Op, key: bytes, ts: nat)
    ensures WrittenSince(hash, ops + [op], key, ts) <==>
            || WrittenSince(hash, ops, key, ts)
            || (op.OpCommit? && op.commitTs > ts && Commits(hash, ops, op.id) && HasWritten(ops, op.id, key))
  {
    hide Commits, HasWritten;
    assert (ops + [op])[..|ops|] == ops;
  }

  lemma HashWrittenMore(hash: Hasher, ops: seq<Op>, op: Op, x: u64, ts: nat)
    ensures HashWrittenSince(hash, ops + [op], x, ts) <==>
            || HashWrittenSince(hash, ops, x, ts)
            || (op.OpCommit? && op.commitTs > ts && Passes(hash, ops, op.id)
                && exists key :: HasWritten(ops, op.id, key) && hash(key) == x)
  {
    hide Passes, HasWritten;
    assert (ops + [op])[..|ops|] == ops;
  }

  lemma StoredMore(hash: Hasher, ops: seq<Op>, op: Op, key: bytes)
    ensures Stored(hash, ops + [op], key) ==
            if op.OpCommit? && Commits(hash, ops, op.id) && HasWritten(ops, op.id, key)
            then OwnWrite(ops, op.id, key).value else Stored(hash, ops, key)
  {
    hide Commits, HasWritten;
    assert (ops + [op])[..|ops|] == ops;
  }

  /** What was never begun has done nothing. */
  lemma {:induction false} UnaskedDidNothing(hash: Hasher, ops: seq<Op>, id: TxnId, key: bytes)
    requires Asked(ops, id).None?
    ensures !HasWritten(ops, id, key) && !HasRead(ops, id, key) && !HasPassed(hash, ops, id)
  {
    hide Live, HashWrittenSince;
    if ops != [] {
      UnaskedDidNothing(hash, ops[..|ops| - 1], id, key);
    }
  }

  // ---------------------------------------------------------------- transactions after one operation

  /** What an operation does to one transaction that is there already. */
  ghost predicate TxnAfter(h: History, op: Op, id: TxnId, t: Txn, t': Txn)
    requires Allowed(h, op)
  {
    && t'.startTs == t.startTs && t'.isolation == t.isolation
    && t'.writeSet == (if op.OpPut? && op.id == id && Writes(h, id, op.locked) then t.writeSet.Put(op.key, op.value)
                       else if op.OpDelete? && op.id == id && Writes(h, id, op.locked) then t.writeSet.Delete(op.key)
                       else t.writeSet)
    && t'.readSet == t.readSet + (if op.OpGet? && op.id == id && t.isolation.Serializable?
                                     && t.writeSet.Get(op.key).None? then {op.key} else {})
    && (t'.state.Open? <==> t.state.Open? && !(op.OpAbort? && op.id == id)
                            && !(op.OpCommit? && op.id == id && StatusOfCommit(h.engine, id, op.commitTs).Done?))
  }

  lemma TxnsAfter(hash: Hasher, h: History, op: Op, id: TxnId)
    requires TxnRuns.Inv(h) && Allowed(h, op)
    ensures var txns, txns' := h.engine.txns, TxnRuns.Step(hash, h, op).engine.txns;
            && (id in txns' <==> id in txns || (op.OpBegin? && op.id == id))
            && (op.OpBegin? && op.id == id ==>
                  txns'[id] == Txn(op.startTs, None, op.isolation, Open, NoWrites, {}))
            && (id in txns ==> TxnAfter(h, op, id, txns[id], txns'[id]))
  {
    hide TxnRuns.Inv, StatusOfCommit, WriteSet.Put, WriteSet.Delete, WriteSet.Get, SsiState.RecordRead;
    hide SsiState.RecordWrite, KeepAfter, Commit;
    if op.OpCommit? {
      CommittedTxn(hash, h, op);
    }
  }

  lemma CommittedTxn(hash: Hasher, h: History, op: Op)
    requires TxnRuns.Inv(h) && Allowed(h, op) && op.OpCommit?
    ensures var t, done := h.engine.txns[op.id], StatusOfCommit(h.engine, op.id, op.commitTs).Done?;
            var txns' := TxnRuns.Step(hash, h, op).engine.txns;
            && (done ==> t.state.Open?)
            && txns'.Keys == h.engine.txns.Keys
            && txns' == h.engine.txns[op.id := txns'[op.id]]
            && txns'[op.id].(commitTs := None) ==
               t.(commitTs := None, state := if done then Committed else t.state)
  {
    hide StatusOfCommit, Commit, ProgramsOk, RecordsOk, ReadsOk, SeriallyConsistent, Replay, LogOk;
    if StatusOfCommit(h.engine, op.id, op.commitTs).Done? {
      DoneCommit(h.engine, op.id, op.commitTs, h.clock);
      CommitIsOfOpen(h, op);
    } else {
      RefusalStep(hash, h, op);
      hide TxnRuns.Step;
    }
  }

  lemma AskedStep(hash: Hasher, ops: seq<Op>, h: History, op: Op)
    requires TxnRuns.Inv(h) && Allowed(h, op) && AskedMirrors(ops, h.engine.txns)
    ensures AskedMirrors(ops + [op], TxnRuns.Step(hash, h, op).engine.txns)
  {
    hide TxnRuns.Inv, TxnRuns.Step, Asked, Allowed;
    forall id ensures
      var txns' := TxnRuns.Step(hash, h, op).engine.txns;
      && (id in txns' <==> Asked(ops + [op], id).Some?)
      && (id in txns' ==> Asked(ops + [op], id) == Some(Request(txns'[id].startTs, txns'[id].isolation)))
    {
      AskedMore(ops, op, id);
      TxnsAfter(hash, h, op, id);
    }
  }

  lemma WritesStep(hash: Hasher, ops: seq<Op>, h: History, op: Op)
    requires TxnRuns.Inv(h) && Allowed(h, op) && AskedMirrors(ops, h.engine.txns) && WritesMirror(ops, h.engine.txns)
    ensures WritesMirror(ops + [op], TxnRuns.Step(hash, h, op).engine.txns)
  {
    hide TxnRuns.Inv, TxnRuns.Step, Asked, OwnWrite;
    var txns' := TxnRuns.Step(hash, h, op).engine.txns;
    forall id, key | id in txns' ensures txns'[id].writeSet.Get(key) == OwnWrite(ops + [op], id, key) {
      OwnWriteMore(ops, op, id, key);
      TxnsAfter(hash, h, op, id);
      if op.OpBegin? && op.id == id {
        UnaskedDidNothing(hash, ops, id, key);
      }
    }
  }

  lemma ReadsStep(hash: Hasher, ops: seq<Op>, h: History, op: Op)
    requires TxnRuns.Inv(h) && Allowed(h, op) && AskedMirrors(ops, h.engine.txns)
    requires WritesMirror(ops, h.engine.txns) && ReadsMirror(ops, h.engine.txns)
    ensures ReadsMirror(ops + [op], TxnRuns.Step(hash, h, op).engine.txns)
  {
    hide TxnRuns.Inv, TxnRuns.Step, Asked, OwnWrite, HasRead, WriteSet.Get;
    var txns' := TxnRuns.Step(hash, h, op).engine.txns;
    forall id, key | id in txns' && txns'[id].isolation.Serializable?
      ensures key in txns'[id].readSet <==> HasRead(ops + [op], id, key)
    {
      HasReadMore(ops, op, id, key);
      TxnsAfter(hash, h, op, id);
      if op.OpBegin? && op.id == id {
        UnaskedDidNothing(hash, ops, id, key);
      }
    }
  }

  lemma LiveStep(hash: Hasher, ops: seq<Op>, h: History, op: Op)
    requires TxnRuns.Inv(h) && Allowed(h, op) && Mirrors(hash, ops, h)
    ensures LiveMirrors(hash, ops + [op], TxnRuns.Step(hash, h, op).engine.txns)
  {
    hide TxnRuns.Inv, TxnRuns.Step, Live, Commits, StatusOfCommit;
    var txns' := TxnRuns.Step(hash, h, op).engine.txns;
    if op.OpCommit? {
      StatusMirrors(hash, ops, h, op.id, op.commitTs);
    }
    assert LiveMirrors(hash, ops, h.engine.txns);
    hide Mirrors;
    forall id | id in txns' ensures txns'[id].state.Open? <==> Live(hash, ops + [op], id) {
      LiveMore(hash, ops, op, id);
      TxnsAfter(hash, h, op, id);
    }
  }

  // ---------------------------------------------------------------- store and log after one operation

  /** What a commit stores and logs. */
  lemma CommitStored(hash: Hasher, h: History, op: Op)
    requires TxnRuns.Inv(h) && Allowed(h, op)
    ensures var h' := TxnRuns.Step(hash, h, op);
            var done := op.OpCommit? && StatusOfCommit(h.engine, op.id, op.commitTs).Done?;
            if done then
              && h'.engine.store == h.engine.txns[op.id].writeSet.ApplyTo(h.engine.store)
              && |h'.log| == |h.log| + 1 && h'.log[..|h.log|] == h.log && h'.log[|h.log|].commitTs == op.commitTs
              && WritesOf(h'.log[|h.log|].program) == h.engine.txns[op.id].writeSet
            else h'.engine.store == h.engine.store && h'.log == h.log
  {
    hide StatusOfCommit, Commit, RecordsOk, ReadsOk, SeriallyConsistent, Replay, LogOk, WritesOf, WriteSet.ApplyTo;
    if !op.OpCommit? {
      QuietStep(hash, h, op);
    } else if StatusOfCommit(h.engine, op.id, op.commitTs).Done? {
      CommitStep(hash, h, op);
    } else {
      RefusalStep(hash, h, op);
    }
    hide TxnRuns.Step, ActiveOk;
  }

  lemma AppliedWrites(w: WriteSet, store: Store, key: bytes)
    ensures Lookup(w.ApplyTo(store), key) == match w.Get(key) case Some(own) => own case None => Lookup(store, key)
    ensures key in w.Keys() <==> w.Get(key).Some?
  {
  }

  lemma StoreStep(hash: Hasher, ops: seq<Op>, h: History, op: Op)
    requires TxnRuns.Inv(h) && Allowed(h, op) && Mirrors(hash, ops, h)
    ensures StoreMirrors(hash, ops + [op], TxnRuns.Step(hash, h, op).engine.store)
  {
    hide TxnRuns.Inv, TxnRuns.Step, Commits, StatusOfCommit, Stored, OwnWrite;
    if op.OpCommit? {
      StatusMirrors(hash, ops, h, op.id, op.commitTs);
    }
    CommitStored(hash, h, op);
    assert StoreMirrors(hash, ops, h.engine.store) && WritesMirror(ops, h.engine.txns);
    hide Mirrors;
    forall key ensures Lookup(TxnRuns.Step(hash, h, op).engine.store, key) == Stored(hash, ops + [op], key) {
      StoredMore(hash, ops, op, key);
      if op.OpCommit? {
        AppliedWrites(h.engine.txns[op.id].writeSet, h.engine.store, key);
      }
      hide WriteSet.ApplyTo, WriteSet.Get, Lookup;
    }
  }

  lemma LongerLogExactly(log: seq<LogEntry>, c: LogEntry, key: bytes, ts: nat)
    ensures Overwritten(log + [c], key, ts) <==>
            Overwritten(log, key, ts) || (c.commitTs > ts && key in WritesOf(c.program).Keys())
  {
    LongerLogOverwrites(log, c, key, ts);
    hide WritesOf;
  }

  lemma LogStep(hash: Hasher, ops: seq<Op>, h: History, op: Op)
    requires TxnRuns.Inv(h) && Allowed(h, op) && Mirrors(hash, ops, h)
    ensures LogMirrors(hash, ops + [op], TxnRuns.Step(hash, h, op).log)
  {
    hide TxnRuns.Inv, TxnRuns.Step, Commits, StatusOfCommit, OwnWrite, WrittenSince, Overwritten, WritesOf;
    if op.OpCommit? {
      StatusMirrors(hash, ops, h, op.id, op.commitTs);
    }
    CommitStored(hash, h, op);
    assert LogMirrors(hash, ops, h.log) && WritesMirror(ops, h.engine.txns);
    hide Mirrors;
    var log' := TxnRuns.Step(hash, h, op).log;
    forall key, ts: nat ensures Overwritten(log', key, ts) <==> WrittenSince(hash, ops + [op], key, ts) {
      WrittenMore(hash, ops, op, key, ts);
      if |log'| > |h.log| {
        assert log' == h.log + [log'[|h.log|]];
        LongerLogExactly(h.log, log'[|h.log|], key, ts);
        AppliedWrites(h.engine.txns[op.id].writeSet, h.engine.store, key);
      }
      hide WriteSet.ApplyTo, WriteSet.Get, WriteSet.Keys, Lookup;
    }
  }

  // ---------------------------------------------------------------- the SSI manager after one operation

  /** What an operation leaves in the SSI manager. */
  ghost function SsiAfter(hash: Hasher, h: History, op: Op): SsiState.Ssi
    requires Allowed(h, op)
  {
    var ssi := h.engine.ssi;
    match op
    case OpBegin(id, startTs, isolation) => SsiBegun(ssi, id, startTs, isolation)
    case OpGet(id, key) =>
      if h.engine.txns[id].isolation.Serializable? && h.engine.txns[id].writeSet.Get(key).None?
      then SsiState.RecordRead(hash, ssi, id, key) else ssi
    case OpPut(id, key, _, locked) =>
      if Writes(h, id, locked) && h.engine.txns[id].isolation.Serializable?
      then SsiState.RecordWrite(hash, ssi, id, key) else ssi
    case OpDelete(id, key, locked) =>
      if Writes(h, id, locked) && h.engine.txns[id].isolation.Serializable?
      then SsiState.RecordWrite(hash, ssi, id, key) else ssi
    case OpCommit(id, commitTs) => SsiValidated(h.engine, id, commitTs)
    case OpAbort(id) => if h.engine.txns[id].isolation.Snapshot? then ssi else SsiState.Abort(ssi, id)
    case OpGc(_) => ssi
  }

  lemma SsiIsAfter(hash: Hasher, h: History, op: Op)
    requires Allowed(h, op)
    ensures TxnRuns.Step(hash, h, op).engine.ssi == SsiAfter(hash, h, op)
    ensures h.clock <= TxnRuns.Step(hash, h, op).clock
  {
    hide SsiState.RecordRead, SsiState.RecordWrite, SsiState.Abort, SsiState.Validate, SsiState.Accepts, KeepAfter;
    hide ReadsStillCurrent, WriteSet.ApplyTo, WriteSet.Put, WriteSet.Delete;
  }

  /** The SSI manager has the transaction as before. */
  predicate SameEntry(ssi: SsiState.Ssi, ssi': SsiState.Ssi, id: TxnId) {
    && (id in ssi'.active <==> id in ssi.active)
    && (id in ssi.active ==> ssi'.active[id] == ssi.active[id])
    && (id in ssi'.startTs <==> id in ssi.startTs)
    && (id in ssi.startTs ==> ssi'.startTs[id] == ssi.startTs[id])
    && (id in ssi'.readOnly <==> id in ssi.readOnly)
  }

  lemma ValidatedOther(e: Engine, other: TxnId, commitTs: nat, id: TxnId)
    requires other in e.txns && other != id
    ensures SameEntry(e.ssi, SsiValidated(e, other, commitTs), id)
  {
    hide SsiState.Accepts, SsiState.Doomed;
  }

  /** Another transaction is not touched. */
  lemma OtherTracked(hash: Hasher, h: History, op: Op, id: TxnId)
    requires Allowed(h, op) && (op.OpGc? || op.id != id)
    ensures SameEntry(h.engine.ssi, SsiAfter(hash, h, op), id)
  {
    hide SsiValidated;
    if op.OpCommit? {
      ValidatedOther(h.engine, op.id, op.commitTs, id);
    }
  }

  lemma HashesOneMore(hash: Hasher, keys: set<bytes>, key: bytes)
    ensures Hashes(hash, keys + {key}) == Hashes(hash, keys) + {hash(key)}
  {
  }

  /** The SSI manager follows the transaction itself, if it is Serializable. */
  ghost predicate Followed(hash: Hasher, h: History, op: Op, t: Txn, t': Txn)
    requires Allowed(h, op) && !op.OpBegin? && !op.OpGc?
  {
    var id, ssi, ssi' := op.id, h.engine.ssi, SsiAfter(hash, h, op);
    && (id in ssi'.active <==>
          id in ssi.active && !op.OpAbort? && !(op.OpCommit? && SsiAgrees(h.engine, id, op.commitTs)))
    && (id in ssi'.active ==>
          && Tracked(hash, ssi', id, t')
          && ssi'.active[id].doomed == if op.OpCommit? then SsiState.Doomed(ssi, id, t.startTs, op.commitTs)
                                       else ssi.active[id].doomed)
  }

  lemma OwnTracked(hash: Hasher, h: History, op: Op, t: Txn, t': Txn)
    requires Allowed(h, op) && !op.OpBegin? && !op.OpGc? && t == h.engine.txns[op.id]
    requires t.isolation.Serializable? && TxnAfter(h, op, op.id, t, t')
    requires op.id in h.engine.ssi.active ==> Tracked(hash, h.engine.ssi, op.id, t)
    ensures Followed(hash, h, op, t, t')
  {
    hide Followed, Tracked, TxnAfter;
    if op.OpGet? {
      OwnRead(hash, h, op, t, t');
    } else if op.OpPut? || op.OpDelete? {
      OwnWritten(hash, h, op, t, t');
    } else {
      OwnEnd(hash, h, op, t, t');
    }
  }

  lemma OwnRead(hash: Hasher, h: History, op: Op, t: Txn, t': Txn)
    requires Allowed(h, op) && op.OpGet? && t == h.engine.txns[op.id]
    requires t.isolation.Serializable? && TxnAfter(h, op, op.id, t, t')
    requires op.id in h.engine.ssi.active ==> Tracked(hash, h.engine.ssi, op.id, t)
    ensures Followed(hash, h, op, t, t')
  {
    hide SsiState.Accepts, SsiState.Doomed, Hashes, WriteSet.Get, WriteSet.Keys;
    HashesOneMore(hash, t.readSet, op.key);
    assert t.readSet + {} == t.readSet;
  }

  lemma KeysOneMore(w: WriteSet, key: bytes, value: bytes)
    ensures w.Put(key, value).Keys() == w.Keys() + {key} == w.Delete(key).Keys()
  {
  }

  lemma OwnWritten(hash: Hasher, h: History, op: Op, t: Txn, t': Txn)
    requires Allowed(h, op) && (op.OpPut? || op.OpDelete?) && t == h.engine.txns[op.id]
    requires t.isolation.Serializable? && TxnAfter(h, op, op.id, t, t')
    requires op.id in h.engine.ssi.active ==> Tracked(hash, h.engine.ssi, op.id, t)
    ensures Followed(hash, h, op, t, t')
  {
    hide SsiState.Accepts, SsiState.Doomed, Hashes, WriteSet.Keys, WriteSet.Put, WriteSet.Delete;
    HashesOneMore(hash, t.writeSet.Keys(), op.key);
    KeysOneMore(t.writeSet, op.key, if op.OpPut? then op.value else []);
    assert t.readSet + {} == t.readSet;
  }

  lemma OwnEnd(hash: Hasher, h: History, op: Op, t: Txn, t': Txn)
    requires Allowed(h, op) && (op.OpAbort? || op.OpCommit?) && t == h.engine.txns[op.id]
    requires t.isolation.Serializable? && TxnAfter(h, op, op.id, t, t')
    requires op.id in h.engine.ssi.active ==> Tracked(hash, h.engine.ssi, op.id, t)
    ensures Followed(hash, h, op, t, t')
  {
    hide SsiState.Phantom, SsiState.Doomed, Hashes, WriteSet.Keys;
    assert t.readSet + {} == t.readSet;
  }

  // ---------------------------------------------------------------- the invariant

  ghost predicate ActiveAt(hash: Hasher, ops: seq<Op>, ssi: SsiState.Ssi, id: TxnId, t: Txn) {
    && (id in ssi.active <==> Live(hash, ops, id) && !HasPassed(hash, ops, id))
    && (id in ssi.active ==> Tracked(hash, ssi, id, t))
    && MarkHasCause(hash, ops, ssi, id, t)
  }

  lemma ActiveBegun(hash: Hasher, ops: seq<Op>, h: History, op: Op)
    requires TxnRuns.Inv(h) && Allowed(h, op) && Mirrors(hash, ops, h) && op.OpBegin? && op.isolation.Serializable?
    ensures ActiveAt(hash, ops + [op], SsiAfter(hash, h, op), op.id,
                     Txn(op.startTs, None, op.isolation, Open, NoWrites, {}))
  {
    hide TxnRuns.Inv, WritesMirror, ReadsMirror, LiveMirrors, StoreMirrors, LogMirrors, ActiveMirrors, CommittedMirrors;
    UnaskedDidNothing(hash, ops, op.id, []);
    LiveMore(hash, ops, op, op.id);
    HasPassedMore(hash, ops, op, op.id);
    hide Live, HasPassed;
    assert NoWrites.Keys() == {};
  }

  /** A cause stays a cause. */
  lemma CauseStays(hash: Hasher, ops: seq<Op>, op: Op, ssi: SsiState.Ssi, id: TxnId, t: Txn, ssi': SsiState.Ssi,
                   t': Txn)
    requires MarkHasCause(hash, ops, ssi, id, t) && t'.startTs == t.startTs && t.readSet <= t'.readSet
    requires id in ssi'.active && ssi'.active[id].doomed ==> id in ssi.active && ssi.active[id].doomed
    ensures MarkHasCause(hash, ops + [op], ssi', id, t')
  {
    hide HashWrittenSince;
    if id in ssi'.active && ssi'.active[id].doomed {
      var key :| key in t.readSet && HashWrittenSince(hash, ops, hash(key), t.startTs);
      HashWrittenMore(hash, ops, op, hash(key), t.startTs);
    }
  }

  lemma OtherActive(hash: Hasher, ops: seq<Op>, h: History, op: Op, id: TxnId, t: Txn, t': Txn)
    requires Allowed(h, op) && (op.OpGc? || op.id != id) && ActiveAt(hash, ops, h.engine.ssi, id, t)
    requires TxnAfter(h, op, id, t, t')
    ensures ActiveAt(hash, ops + [op], SsiAfter(hash, h, op), id, t')
  {
    hide Live, HasPassed, MarkHasCause, SsiAfter, Hashes, WriteSet.Keys, Allowed;
    OtherTracked(hash, h, op, id);
    LiveMore(hash, ops, op, id);
    HasPassedMore(hash, ops, op, id);
    CauseStays(hash, ops, op, h.engine.ssi, id, t, SsiAfter(hash, h, op), t');
    assert t.readSet + {} == t.readSet;
  }

  lemma AsksMirrors(hash: Hasher, ops: seq<Op>, h: History, id: TxnId)
    requires Mirrors(hash, ops, h) && id in h.engine.txns
    ensures AsksForSerializable(ops, id) <==> h.engine.txns[id].isolation.Serializable?
    ensures AsksToWrite(ops, id) <==> !h.engine.txns[id].isolation.IsReadOnly()
  {
    hide ReadsMirror, WritesMirror, LiveMirrors, StoreMirrors, LogMirrors, ActiveMirrors, CommittedMirrors, Asked;
  }

  lemma OwnActive(hash: Hasher, ops: seq<Op>, h: History, op: Op, t: Txn, t': Txn)
    requires TxnRuns.Inv(h) && Mirrors(hash, ops, h)
    requires Allowed(h, op) && !op.OpGc? && !op.OpBegin? && op.id in h.engine.txns && t == h.engine.txns[op.id]
    requires t.isolation.Serializable?
    requires ActiveAt(hash, ops, h.engine.ssi, op.id, t) && TxnAfter(h, op, op.id, t, t')
    ensures ActiveAt(hash, ops + [op], SsiAfter(hash, h, op), op.id, t')
  {
    hide TxnRuns.Inv, Mirrors, Live, HasPassed, SsiAfter, Tracked, Commits, Passes, StatusOfCommit, SsiAgrees;
    hide Allowed, AsksForSerializable;
    AsksMirrors(hash, ops, h, op.id);
    var id, ssi, ssi' := op.id, h.engine.ssi, SsiAfter(hash, h, op);
    OwnTracked(hash, h, op, t, t');
    LiveMore(hash, ops, op, id);
    HasPassedMore(hash, ops, op, id);
    if op.OpCommit? {
      CommitsLater(h, op);
      StatusMirrors(hash, ops, h, id, op.commitTs);
      PassesIsLive(hash, ops, id);
    }
    hide TxnAfter;
    if op.OpCommit? && id in ssi'.active && ssi'.active[id].doomed {
      AcceptsMirrors(hash, ops, h, id, op.commitTs);
      var key :| key in t.readSet && HashWrittenSince(hash, ops, hash(key), t.startTs);
      HashWrittenMore(hash, ops, op, hash(key), t.startTs);
    } else {
      CauseStays(hash, ops, op, ssi, id, t, ssi', t');
    }
  }

  lemma PassesIsLive(hash: Hasher, ops: seq<Op>, id: TxnId)
    ensures Passes(hash, ops, id) ==>
              AsksForSerializable(ops, id) && Live(hash, ops, id) && !HasPassed(hash, ops, id)
    ensures Commits(hash, ops, id) && AsksForSerializable(ops, id) ==> Passes(hash, ops, id)
  {
  }

  lemma ActiveStep(hash: Hasher, ops: seq<Op>, h: History, op: Op)
    requires TxnRuns.Inv(h) && Allowed(h, op) && Mirrors(hash, ops, h)
    ensures ActiveMirrors(hash, ops + [op], TxnRuns.Step(hash, h, op).engine)
  {
    hide TxnRuns.Inv, TxnRuns.Step, Mirrors, Live, HasPassed, SsiAfter, Tracked, Allowed;
    var e, e' := h.engine, TxnRuns.Step(hash, h, op).engine;
    SsiIsAfter(hash, h, op);
    forall id | id in e'.txns && e'.txns[id].isolation.Serializable?
      ensures ActiveAt(hash, ops + [op], e'.ssi, id, e'.txns[id])
    {
      TxnsAfter(hash, h, op, id);
      if op.OpBegin? && op.id == id {
        ActiveBegun(hash, ops, h, op);
      } else {
        WasActive(hash, ops, h, id);
        if op.OpGc? || op.id != id {
          OtherActive(hash, ops, h, op, id, e.txns[id], e'.txns[id]);
        } else {
          OwnActive(hash, ops, h, op, e.txns[id], e'.txns[id]);
        }
      }
      hide MarkHasCause;
    }
    hide ActiveAt, MarkHasCause;
    AllActive(hash, ops + [op], e');
  }

  lemma AllActive(hash: Hasher, ops: seq<Op>, e: Engine)
    requires forall id | id in e.txns && e.txns[id].isolation.Serializable? ::
               ActiveAt(hash, ops, e.ssi, id, e.txns[id])
    ensures ActiveMirrors(hash, ops, e)
  {
    hide Live, HasPassed, Tracked, MarkHasCause;
  }

  lemma WasActive(hash: Hasher, ops: seq<Op>, h: History, id: TxnId)
    requires Mirrors(hash, ops, h) && id in h.engine.txns && h.engine.txns[id].isolation.Serializable?
    ensures ActiveAt(hash, ops, h.engine.ssi, id, h.engine.txns[id])
  {
    hide Live, HasPassed, Tracked, MarkHasCause;
  }

  lemma StartBegun(hash: Hasher, ops: seq<Op>, h: History, op: Op)
    requires Allowed(h, op) && StartsMirror(hash, ops, h.engine) && op.OpBegin? && !op.isolation.Serializable?
    ensures StartKnown(hash, ops + [op], SsiAfter(hash, h, op), op.id,
                       Txn(op.startTs, None, op.isolation, Open, NoWrites, {}))
  {
    LiveMore(hash, ops, op, op.id);
    hide Live;
  }

  lemma OwnStart(hash: Hasher, ops: seq<Op>, h: History, op: Op, t: Txn, t': Txn)
    requires Allowed(h, op) && !op.OpGc? && !op.OpBegin? && op.id in h.engine.txns && t == h.engine.txns[op.id]
    requires !t.isolation.Serializable? && StartKnown(hash, ops, h.engine.ssi, op.id, t)
    requires TxnAfter(h, op, op.id, t, t') && (AsksToWrite(ops, op.id) <==> !t.isolation.IsReadOnly())
    ensures StartKnown(hash, ops + [op], SsiAfter(hash, h, op), op.id, t')
  {
    hide Live, Commits;
    LiveMore(hash, ops, op, op.id);
    CommitsAsks(hash, ops, op.id);
  }

  lemma OtherStart(hash: Hasher, ops: seq<Op>, h: History, op: Op, id: TxnId, t: Txn, t': Txn)
    requires Allowed(h, op) && (op.OpGc? || op.id != id) && TxnAfter(h, op, id, t, t')
    requires StartKnown(hash, ops, h.engine.ssi, id, t)
    ensures StartKnown(hash, ops + [op], SsiAfter(hash, h, op), id, t')
  {
    hide Live, SsiAfter, Allowed;
    OtherTracked(hash, h, op, id);
    LiveMore(hash, ops, op, id);
  }

  lemma StartsStep(hash: Hasher, ops: seq<Op>, h: History, op: Op)
    requires TxnRuns.Inv(h) && Allowed(h, op) && Mirrors(hash, ops, h)
    ensures StartsMirror(hash, ops + [op], TxnRuns.Step(hash, h, op).engine)
  {
    hide TxnRuns.Inv, TxnRuns.Step, Live, SsiAfter, Allowed, StartKnown, AskedMirrors, WritesMirror, ReadsMirror;
    hide LiveMirrors, StoreMirrors, LogMirrors, ActiveMirrors, CommittedMirrors;
    var e, e' := h.engine, TxnRuns.Step(hash, h, op).engine;
    SsiIsAfter(hash, h, op);
    forall id
      ensures id in e'.ssi.startTs || id in e'.ssi.readOnly ==> id in e'.txns
      ensures id in e'.txns && !e'.txns[id].isolation.Serializable? ==>
                StartKnown(hash, ops + [op], e'.ssi, id, e'.txns[id])
    {
      TxnsAfter(hash, h, op, id);
      if op.OpGc? || op.id != id {
        OtherTracked(hash, h, op, id);
        if id in e.txns && !e.txns[id].isolation.Serializable? {
          OtherStart(hash, ops, h, op, id, e.txns[id], e'.txns[id]);
        }
      } else if op.OpBegin? {
        if !op.isolation.Serializable? {
          StartBegun(hash, ops, h, op);
        }
      } else {
        AllowedKnows(h, op);
        if !e.txns[id].isolation.Serializable? {
          AsksMirrors(hash, ops, h, id);
          OwnStart(hash, ops, h, op, e.txns[id], e'.txns[id]);
        }
      }
    }
    hide Mirrors;
  }

  lemma AllowedKnows(h: History, op: Op)
    requires Allowed(h, op)
    ensures !op.OpGc? && !op.OpBegin? ==> op.id in h.engine.txns
  {
  }

  lemma CommitsAsks(hash: Hasher, ops: seq<Op>, id: TxnId)
    ensures Commits(hash, ops, id) ==> AsksToWrite(ops, id)
  {
  }

  lemma CommittedOneMore(committed: map<nat, SsiState.CommittedTxn>, commitTs: nat, c: SsiState.CommittedTxn,
                         clock: nat, x: u64, ts: nat)
    requires CommittedBefore(committed, clock) && clock < commitTs
    ensures HashCommittedSince(committed[commitTs := c], x, ts) <==>
            HashCommittedSince(committed, x, ts) || (commitTs > ts && x in c.writeSet)
  {
    var more := committed[commitTs := c];
    if t :| t in committed && t > ts && x in committed[t].writeSet {
      assert more[t] == committed[t];
    }
    if commitTs > ts && x in c.writeSet {
      assert more[commitTs].writeSet == c.writeSet;
    }
  }

  lemma SameCommitted(hash: Hasher, h: History, op: Op)
    requires Allowed(h, op)
    requires op.OpCommit? && h.engine.txns[op.id].isolation.Serializable? ==> !SsiAgrees(h.engine, op.id, op.commitTs)
    ensures SsiAfter(hash, h, op).committed == h.engine.ssi.committed
  {
    hide SsiState.Accepts, SsiState.Doomed, Allowed;
  }

  /** An accepted validation leaves the hashes of what was written, under the commit timestamp. */
  lemma OneMoreCommitted(hash: Hasher, e: Engine, id: TxnId, commitTs: nat)
    requires id in e.txns && e.txns[id].isolation.Serializable? && SsiAgrees(e, id, commitTs)
    requires Tracked(hash, e.ssi, id, e.txns[id])
    ensures SsiValidated(e, id, commitTs).committed ==
            e.ssi.committed[commitTs := SsiState.CommittedTxn(e.txns[id].startTs, Hashes(hash, e.txns[id].readSet),
                                                              Hashes(hash, e.txns[id].writeSet.Keys()), [])]
  {
    hide SsiState.Phantom, SsiState.Doomed, Hashes, WriteSet.Keys;
  }

  /** What a commit adds to the SSI manager. */
  lemma CommittedAfter(hash: Hasher, ops: seq<Op>, h: History, op: Op)
    requires TxnRuns.Inv(h) && Allowed(h, op) && Mirrors(hash, ops, h)
    ensures var committed, committed' := h.engine.ssi.committed, SsiAfter(hash, h, op).committed;
            if op.OpCommit? && Passes(hash, ops, op.id) then
              && op.commitTs in committed' && committed' == committed[op.commitTs := committed'[op.commitTs]]
              && committed'[op.commitTs].startTs <= h.clock && committed'[op.commitTs].writeKeys == []
              && committed'[op.commitTs].writeSet == Hashes(hash, h.engine.txns[op.id].writeSet.Keys())
            else committed' == committed
  {
    hide SsiState.Validate, SsiState.Accepts, ProgramsOk, RecordsOk, ReadsOk, SeriallyConsistent, Replay, LogOk;
    hide WritesMirror, ReadsMirror, LiveMirrors, StoreMirrors, LogMirrors, CommittedMirrors, WriteSet.Keys, Hashes;
    hide Passes, Asked, MarkHasCause, StatusOfCommit, SsiAgrees;
    if op.OpCommit? {
      AsksMirrors(hash, ops, h, op.id);
      PassesIsLive(hash, ops, op.id);
      StatusMirrors(hash, ops, h, op.id, op.commitTs);
    }
    if op.OpCommit? && Passes(hash, ops, op.id) {
      WasActive(hash, ops, h, op.id);
      assert h.engine.txns[op.id].startTs <= h.clock;
      OneMoreCommitted(hash, h.engine, op.id, op.commitTs);
      hide Mirrors, TxnRuns.Inv;
    } else {
      hide Mirrors, TxnRuns.Inv;
      SameCommitted(hash, h, op);
    }
  }

  lemma WritersHashes(hash: Hasher, ops: seq<Op>, id: TxnId, w: WriteSet, x: u64)
    requires forall key :: w.Get(key) == OwnWrite(ops, id, key)
    ensures x in Hashes(hash, w.Keys()) <==> exists key :: HasWritten(ops, id, key) && hash(key) == x
  {
    hide OwnWrite;
    assert forall key :: key in w.Keys() <==> HasWritten(ops, id, key);
    hide HasWritten, WriteSet.Keys, WriteSet.Get;
  }

  lemma CommittedStep(hash: Hasher, ops: seq<Op>, h: History, op: Op)
    requires TxnRuns.Inv(h) && Allowed(h, op) && Mirrors(hash, ops, h)
    ensures CommittedMirrors(hash, ops + [op], TxnRuns.Step(hash, h, op).engine.ssi.committed,
                             TxnRuns.Step(hash, h, op).clock)
  {
    hide TxnRuns.Inv, TxnRuns.Step, SsiAfter, Passes, HashCommittedSince, HashWrittenSince, Hashes;
    CommittedAfter(hash, ops, h, op);
    SsiIsAfter(hash, h, op);
    assert WritesMirror(ops, h.engine.txns) && CommittedMirrors(hash, ops, h.engine.ssi.committed, h.clock);
    hide Mirrors;
    var committed, committed' := h.engine.ssi.committed, SsiAfter(hash, h, op).committed;
    ClockAfter(hash, h, op);
    forall x, ts: nat ensures HashCommittedSince(committed', x, ts) <==> HashWrittenSince(hash, ops + [op], x, ts) {
      HashWrittenMore(hash, ops, op, x, ts);
      if op.OpCommit? && Passes(hash, ops, op.id) {
        CommittedOneMore(committed, op.commitTs, committed'[op.commitTs], h.clock, x, ts);
        WritersHashes(hash, ops, op.id, h.engine.txns[op.id].writeSet, x);
      }
      hide CommittedBefore, WritesMirror, HasWritten;
    }
  }

  lemma ClockAfter(hash: Hasher, h: History, op: Op)
    requires Allowed(h, op)
    ensures op.OpCommit? ==> TxnRuns.Step(hash, h, op).clock == op.commitTs
  {
  }

  lemma MirrorsStep(hash: Hasher, ops: seq<Op>, h: History, op: Op)
    requires TxnRuns.Inv(h) && Allowed(h, op) && Mirrors(hash, ops, h)
    ensures Mirrors(hash, ops + [op], TxnRuns.Step(hash, h, op))
  {
    hide TxnRuns.Inv, TxnRuns.Step, Allowed, AskedMirrors, WritesMirror, ReadsMirror, LiveMirrors, StoreMirrors;
    hide LogMirrors, ActiveMirrors, StartsMirror, CommittedMirrors;
    AskedStep(hash, ops, h, op);
    WritesStep(hash, ops, h, op);
    ReadsStep(hash, ops, h, op);
    LiveStep(hash, ops, h, op);
    StoreStep(hash, ops, h, op);
    LogStep(hash, ops, h, op);
    ActiveStep(hash, ops, h, op);
    StartsStep(hash, ops, h, op);
    CommittedStep(hash, ops, h, op);
  }

  lemma MirrorsAtFirst(hash: Hasher)
    ensures Mirrors(hash, [], NewHistory)
  {
  }

  lemma {:induction false} RunMirrors(hash: Hasher, ops: seq<Op>)
    requires RunAllowed(hash, ops)
    ensures TxnRuns.Inv(Run(hash, ops)) && Mirrors(hash, ops, Run(hash, ops))
  {
    hide Mirrors, TxnRuns.Inv, TxnRuns.Step, Allowed;
    RunKeepsInv(hash, ops);
    if ops == [] {
      MirrorsAtFirst(hash);
    } else {
      var before, op := ops[..|ops| - 1], ops[|ops| - 1];
      RunMirrors(hash, before);
      MirrorsStep(hash, before, Run(hash, before), op);
      assert before + [op] == ops;
    }
  }

  // ---------------------------------------------------------------- main results

  /** Over every run a get answers the own write, or what the last successful commit of the key left. */
  lemma GetAnswersExactly(hash: Hasher, ops: seq<Op>, id: TxnId, key: bytes)
    requires RunAllowed(hash, ops) && id in Run(hash, ops).engine.txns
    ensures Get(hash, Run(hash, ops).engine, id, key).1 == Answer(hash, ops, id, key)
    ensures Lookup(Run(hash, ops).engine.store, key) == Stored(hash, ops, key)
  {
    hide Run, RunAllowed, Stored, OwnWrite, TxnRuns.Inv, LiveMirrors, LogMirrors, ActiveMirrors, CommittedMirrors;
    RunMirrors(hash, ops);
    hide ReadsMirror, AskedMirrors;
  }

  /**
   Over every run, and whatever the hash, a commit succeeds exactly when the operations before it let it:
   the transaction is open and may write, and if it was begun as Serializable, nothing it read was written
   by a commit since its start, and it passes the validation by hashes.
   */
  lemma CommitsExactly(hash: Hasher, ops: seq<Op>, id: TxnId, commitTs: nat)
    requires RunAllowed(hash, ops) && id in Run(hash, ops).engine.txns && commitTs > Run(hash, ops).clock
    ensures StatusOfCommit(Run(hash, ops).engine, id, commitTs).Done? <==> Commits(hash, ops, id)
  {
    hide Run, RunAllowed, Commits, TxnRuns.Inv, Mirrors, StatusOfCommit;
    RunMirrors(hash, ops);
    StatusMirrors(hash, ops, Run(hash, ops), id, commitTs);
  }

  /** Every transaction keeps the level and the start it was begun with. */
  lemma RunsAsAsked(hash: Hasher, ops: seq<Op>, id: TxnId)
    requires RunAllowed(hash, ops) && id in Run(hash, ops).engine.txns
    ensures var t := Run(hash, ops).engine.txns[id];
            Asked(ops, id) == Some(Request(t.startTs, t.isolation)) && (t.state.Open? <==> Live(hash, ops, id))
  {
    hide Run, RunAllowed, Asked, Live, TxnRuns.Inv, WritesMirror, ReadsMirror, StoreMirrors, LogMirrors, ActiveMirrors;
    RunMirrors(hash, ops);
  }

  /**
   One begun as Serializable is known to the SSI manager, with the hashes of all it read and wrote, from
   then on until it ends or a commit of it passes the first validation.
   */
  lemma SerializableIsTracked(hash: Hasher, ops: seq<Op>, id: TxnId)
    requires RunAllowed(hash, ops) && AsksForSerializable(ops, id)
    ensures var e := Run(hash, ops).engine;
            && (id in e.ssi.active <==> Live(hash, ops, id) && !HasPassed(hash, ops, id))
            && (id in e.ssi.active ==>
                  var a := e.ssi.active[id];
                  && (forall x :: x in a.readKeys <==> exists key :: HasRead(ops, id, key) && hash(key) == x)
                  && (forall x :: x in a.writeKeys <==> exists key :: HasWritten(ops, id, key) && hash(key) == x))
  {
    hide Run, RunAllowed, Asked, Live, TxnRuns.Inv, StoreMirrors, LogMirrors, HasPassed, MarkHasCause, LiveMirrors;
    RunMirrors(hash, ops);
    var e := Run(hash, ops).engine;
    var t := e.txns[id];
    assert id in e.ssi.active ==> Tracked(hash, e.ssi, id, t);
    assert forall key :: key in t.readSet <==> HasRead(ops, id, key);
    assert forall key :: t.writeSet.Get(key) == OwnWrite(ops, id, key);
    hide Mirrors, HasRead, OwnWrite;
    forall x {
      WritersHashes(hash, ops, id, t.writeSet, x);
    }
    hide HasWritten, WriteSet.Get, WriteSet.Keys;
  }

  /**
   One begun as read-only is registered with the SSI manager under its start until it is aborted, so that the
   safe snapshot minds it; one begun as Snapshot never is.
   */
  lemma ReadOnlyIsRegistered(hash: Hasher, ops: seq<Op>, id: TxnId)
    requires RunAllowed(hash, ops) && Asked(ops, id).Some? && !AsksForSerializable(ops, id)
    ensures var ssi, asked := Run(hash, ops).engine.ssi, Asked(ops, id).value;
            && (id in ssi.startTs <==> asked.isolation != Snapshot && Live(hash, ops, id))
            && (id in ssi.readOnly <==> asked.isolation != Snapshot && Live(hash, ops, id))
            && (id in ssi.startTs ==> ssi.startTs[id] == asked.startTs)
  {
    hide Run, RunAllowed, Asked, Live, TxnRuns.Inv, WritesMirror, ReadsMirror, StoreMirrors, LogMirrors, ActiveMirrors;
    hide LiveMirrors, CommittedMirrors;
    RunMirrors(hash, ops);
  }

  // ---------------------------------------------------------------- serializability

  lemma {:induction false} PrefixAllowed(hash: Hasher, ops: seq<Op>, n: nat)
    requires RunAllowed(hash, ops) && n <= |ops|
    ensures RunAllowed(hash, ops[..n])
    ensures n < |ops| ==> Allowed(Run(hash, ops[..n]), ops[n])
    ensures Run(hash, ops[..n]).clock <= Run(hash, ops).clock
    decreases |ops| - n
  {
    hide Allowed, TxnRuns.Step;
    if n == |ops| {
      assert ops[..n] == ops;
    } else {
      PrefixAllowed(hash, ops, n + 1);
      assert ops[..n + 1][..n] == ops[..n];
      SsiIsAfter(hash, Run(hash, ops[..n]), ops[n]);
    }
  }

  lemma {:induction false} StartIsPast(hash: Hasher, ops: seq<Op>, id: TxnId)
    requires RunAllowed(hash, ops) && AsksForSerializable(ops, id)
    ensures Asked(ops, id).value.startTs <= Run(hash, ops).clock
  {
    var before, op := ops[..|ops| - 1], ops[|ops| - 1];
    if !(op.OpBegin? && op.id == id) {
      StartIsPast(hash, before, id);
      SsiIsAfter(hash, Run(hash, before), op);
    }
    hide SsiState.RecordRead, SsiState.RecordWrite, StatusOfCommit, Commit;
  }

  /** A key that no commit since `ts` wrote holds what it held. */
  lemma {:induction false} StoredStays(hash: Hasher, ops: seq<Op>, i: nat, n: nat, key: bytes, ts: nat)
    requires RunAllowed(hash, ops) && i <= n <= |ops| && ts <= Run(hash, ops[..i]).clock
    requires !WrittenSince(hash, ops[..n], key, ts)
    ensures Stored(hash, ops[..n], key) == Stored(hash, ops[..i], key)
    decreases n
  {
    hide Run, RunAllowed, Stored, WrittenSince, Commits, HasWritten, Allowed;
    if i < n {
      var before, op := ops[..n - 1], ops[n - 1];
      assert before + [op] == ops[..n];
      WrittenMore(hash, before, op, key, ts);
      StoredMore(hash, before, op, key);
      StoredStays(hash, ops, i, n - 1, key, ts);
      PrefixAllowed(hash, ops, n - 1);
      PrefixAllowed(hash, before, i);
      assert before[..i] == ops[..i];
      CommitsLater(Run(hash, before), op);
    }
  }

  lemma CommitsLater(h: History, op: Op)
    requires Allowed(h, op)
    ensures op.OpCommit? ==> op.commitTs > h.clock
  {
  }

  lemma {:induction false} ReadStays(ops: seq<Op>, i: nat, n: nat, id: TxnId, key: bytes)
    requires i < n <= |ops| && ops[i] == OpGet(id, key) && Asked(ops[..i], id).Some? && !HasWritten(ops[..i], id, key)
    ensures HasRead(ops[..n], id, key)
    decreases n
  {
    hide HasRead, Asked, HasWritten;
    assert ops[..n - 1] + [ops[n - 1]] == ops[..n];
    HasReadMore(ops[..n - 1], ops[n - 1], id, key);
    if i < n - 1 {
      ReadStays(ops, i, n - 1, id, key);
    }
  }

  /**
   Serializability of whole runs, whatever other levels are mixed in. Every get of a transaction that was
   begun as Serializable and commits answered what it would have answered just before the commit: the
   commit is a point at which the transaction could have run alone.
   */
  lemma SerializableAtCommit(hash: Hasher, ops: seq<Op>, i: nat, n: nat)
    requires RunAllowed(hash, ops) && i < n < |ops| && ops[n].OpCommit? && AsksForSerializable(ops[..n], ops[n].id)
    requires Commits(hash, ops[..n], ops[n].id)
    requires ops[i].OpGet? && ops[i].id == ops[n].id
    ensures Answer(hash, ops[..i], ops[i].id, ops[i].key) ==
            match OwnWrite(ops[..i], ops[i].id, ops[i].key)
            case Some(own) => own
            case None => Stored(hash, ops[..n], ops[i].key)
  {
    hide Run, RunAllowed, Stored, WrittenSince, OwnWrite, HasRead, Asked;
    var id, key := ops[i].id, ops[i].key;
    if OwnWrite(ops[..i], id, key).None? {
      PrefixAllowed(hash, ops, n);
      PrefixAllowed(hash, ops, i);
      AllowedIsAsked(hash, ops[..i], ops[i]);
      ReadStays(ops, i, n, id, key);
      AskedStays(hash, ops, i, n, id);
      StartIsPast(hash, ops[..i], id);
      StoredStays(hash, ops, i, n, key, Asked(ops[..n], id).value.startTs);
    }
  }

  lemma AllowedIsAsked(hash: Hasher, ops: seq<Op>, op: Op)
    requires RunAllowed(hash, ops) && Allowed(Run(hash, ops), op) && !op.OpGc?
    ensures Asked(ops, op.id).None? <==> op.OpBegin?
  {
    hide Run, RunAllowed, TxnRuns.Inv, WritesMirror, ReadsMirror, LiveMirrors, StoreMirrors, LogMirrors, ActiveMirrors;
    RunMirrors(hash, ops);
  }

  lemma {:induction false} AskedStays(hash: Hasher, ops: seq<Op>, i: nat, n: nat, id: TxnId)
    requires RunAllowed(hash, ops) && i <= n <= |ops| && Asked(ops[..i], id).Some?
    ensures Asked(ops[..n], id) == Asked(ops[..i], id)
    decreases n
  {
    hide Run, RunAllowed, Asked, Allowed;
    if i < n {
      AskedStays(hash, ops, i, n - 1, id);
      assert ops[..n - 1] + [ops[n - 1]] == ops[..n];
      AskedMore(ops[..n - 1], ops[n - 1], id);
      PrefixAllowed(hash, ops, n - 1);
      AllowedIsAskedAt(hash, ops, n - 1);
    }
  }

  lemma AllowedIsAskedAt(hash: Hasher, ops: seq<Op>, n: nat)
    requires RunAllowed(hash, ops) && n < |ops|
    ensures ops[n].OpBegin? ==> Asked(ops[..n], ops[n].id).None?
  {
    PrefixAllowed(hash, ops, n);
    if ops[n].OpBegin? {
      AllowedIsAsked(hash, ops[..n], ops[n]);
    }
  }

  // ---------------------------------------------------------------- when the validation by hashes is no stricter

  /** Nobody asks for Snapshot. */
  predicate NoSnapshots(ops: seq<Op>) {
    forall op | op in ops :: op.OpBegin? ==> op.isolation != Snapshot
  }

  predicate HasKey(op: Op) {
    op.OpGet? || op.OpPut? || op.OpDelete?
  }

  predicate Uses(op: Op, key: bytes) {
    HasKey(op) && op.key == key
  }

  predicate InUse(ops: seq<Op>, key: bytes) {
    exists op :: op in ops && Uses(op, key)
  }

  predicate NoCollision(hash: Hasher, ops: seq<Op>) {
    forall a, b | a in ops && b in ops && HasKey(a) && HasKey(b) :: hash(a.key) == hash(b.key) ==> a.key == b.key
  }

  lemma {:induction false} WritersAreSerializable(ops: seq<Op>, id: TxnId)
    requires NoSnapshots(ops) && AsksToWrite(ops, id)
    ensures AsksForSerializable(ops, id)
  {
    var before, op := ops[..|ops| - 1], ops[|ops| - 1];
    if op.OpBegin? && op.id == id {
      assert op in ops;
    } else {
      WritersAreSerializable(before, id);
    }
  }

  /** What commits has passed, so a key that was written has its hash written. */
  lemma {:induction false} WrittenIsHashed(hash: Hasher, ops: seq<Op>, key: bytes, ts: nat)
    requires NoSnapshots(ops) && WrittenSince(hash, ops, key, ts)
    ensures HashWrittenSince(hash, ops, hash(key), ts)
  {
    hide HasWritten, Asked;
    var before, op := ops[..|ops| - 1], ops[|ops| - 1];
    if WrittenSince(hash, before, key, ts) {
      WrittenIsHashed(hash, before, key, ts);
    } else {
      WritersAreSerializable(before, op.id);
      PassesIsLive(hash, before, op.id);
    }
  }

  lemma PassedCommits(hash: Hasher, ops: seq<Op>, id: TxnId)
    requires NoSnapshots(ops) && Passes(hash, ops, id)
    ensures Commits(hash, ops, id)
  {
    hide HasRead, Asked, WrittenSince, HashWrittenSince, Live, HasPassed;
    forall key | HasRead(ops, id, key) && WrittenSince(hash, ops, key, Asked(ops, id).value.startTs) ensures false {
      WrittenIsHashed(hash, ops, key, Asked(ops, id).value.startTs);
    }
  }

  lemma {:induction false} WrittenIsInUse(ops: seq<Op>, id: TxnId, key: bytes)
    ensures HasWritten(ops, id, key) ==> InUse(ops, key)
    ensures HasRead(ops, id, key) ==> InUse(ops, key)
  {
    hide Asked;
    if ops != [] {
      var before, op := ops[..|ops| - 1], ops[|ops| - 1];
      WrittenIsInUse(before, id, key);
      if InUse(before, key) {
        var o :| o in before && Uses(o, key);
        assert o in ops;
      }
      assert op in ops;
    }
  }

  lemma {:induction false} HashedIsWritten(hash: Hasher, ops: seq<Op>, all: seq<Op>, key: bytes, ts: nat)
    requires NoSnapshots(ops) && NoCollision(hash, all) && ops <= all && InUse(all, key)
    requires HashWrittenSince(hash, ops, hash(key), ts)
    ensures WrittenSince(hash, ops, key, ts)
  {
    hide HasWritten, Asked, Commits, Passes;
    var before, op := ops[..|ops| - 1], ops[|ops| - 1];
    if HashWrittenSince(hash, before, hash(key), ts) {
      HashedIsWritten(hash, before, all, key, ts);
    } else {
      var k :| HasWritten(before, op.id, k) && hash(k) == hash(key);
      PassedCommits(hash, before, op.id);
      WrittenIsInUse(before, op.id, k);
      UsedTogether(hash, all, before, k, key);
    }
  }

  lemma UsedTogether(hash: Hasher, all: seq<Op>, before: seq<Op>, k: bytes, key: bytes)
    requires NoCollision(hash, all) && before <= all && InUse(before, k) && InUse(all, key) && hash(k) == hash(key)
    ensures k == key
  {
    var a :| a in before && Uses(a, k);
    var b :| b in all && Uses(b, key);
    assert a in all;
  }

  lemma {:induction false} LiveHasNotPassed(hash: Hasher, ops: seq<Op>, id: TxnId)
    requires RunAllowed(hash, ops) && NoSnapshots(ops) && Live(hash, ops, id)
    ensures !HasPassed(hash, ops, id)
  {
    hide Passes, Commits, Allowed, TxnRuns.Step;
    var before, op := ops[..|ops| - 1], ops[|ops| - 1];
    if op.OpBegin? && op.id == id {
      AllowedIsAsked(hash, before, op);
      UnaskedDidNothing(hash, before, id, []);
    } else {
      LiveHasNotPassed(hash, before, id);
      if Passes(hash, before, id) {
        PassedCommits(hash, before, id);
      }
    }
  }

  /**
   Where nobody asks for Snapshot and no two keys in use collide, a commit of one begun as Serializable
   succeeds exactly when it is open and no commit since its start wrote a key it read.
   */
  lemma CommitsIffNothingOverwritten(hash: Hasher, ops: seq<Op>, id: TxnId)
    requires RunAllowed(hash, ops) && NoSnapshots(ops) && NoCollision(hash, ops) && AsksForSerializable(ops, id)
    ensures Commits(hash, ops, id) <==>
            Live(hash, ops, id)
            && forall key | HasRead(ops, id, key) :: !WrittenSince(hash, ops, key, Asked(ops, id).value.startTs)
  {
    hide Run, RunAllowed, NoCollision;
    var ts := Asked(ops, id).value.startTs;
    CommitsMeans(hash, ops, id, ts);
    PassesIsLive(hash, ops, id);
    if && Live(hash, ops, id)
       && forall key | HasRead(ops, id, key) :: !WrittenSince(hash, ops, key, ts)
    {
      LiveHasNotPassed(hash, ops, id);
      forall key | HasRead(ops, id, key) && HashWrittenSince(hash, ops, hash(key), ts) ensures false {
        WrittenIsInUse(ops, id, key);
        HashedIsWritten(hash, ops, ops, key, ts);
      }
      assert Passes(hash, ops, id);
    } else if Live(hash, ops, id) {
      var k :| HasRead(ops, id, k) && WrittenSince(hash, ops, k, ts);
      assert exists key :: HasRead(ops, id, key) && WrittenSince(hash, ops, key, Asked(ops, id).value.startTs);
    }
  }

  // ---------------------------------------------------------------- when it is

  function Begun(): seq<Op> {
    [OpBegin(1, 1, Serializable)] + [OpBegin(2, 2, Snapshot)] + [OpBegin(3, 3, Serializable)]
  }

  /** Transaction 1 reads `a` and writes `b`, Snapshot transaction 2 writes `a`, transaction 3 reads `b`. */
  function Crossed(a: bytes, b: bytes, v: bytes): seq<Op> {
    Begun() + [OpGet(1, a)] + [OpPut(1, b, v, true)] + [OpPut(2, a, v, true)] + [OpGet(3, b)]
  }

  /** Then 2 commits, and the commit of 1 is refused. */
  function Ghosted(a: bytes, b: bytes, v: bytes): seq<Op> {
    Crossed(a, b, v) + [OpCommit(2, 4)] + [OpCommit(1, 5)]
  }

  lemma OneMoreAllowed(hash: Hasher, ops: seq<Op>, op: Op)
    requires RunAllowed(hash, ops) && Allowed(Run(hash, ops), op)
    ensures RunAllowed(hash, ops + [op]) && Run(hash, ops + [op]) == TxnRuns.Step(hash, Run(hash, ops), op)
  {
    hide Allowed, TxnRuns.Step;
    assert (ops + [op])[..|ops|] == ops;
  }

  /** Exactly these are there and open, at these levels. */
  predicate OpenAt(h: History, levels: map<TxnId, IsolationLevel>, clock: nat) {
    && h.engine.txns.Keys == levels.Keys && h.clock == clock
    && forall id | id in levels :: h.engine.txns[id].state.Open? && h.engine.txns[id].isolation == levels[id]
  }

  predicate ThreeOpen(h: History, clock: nat) {
    OpenAt(h, map[1 := Serializable, 2 := Snapshot, 3 := Serializable], clock)
  }

  lemma BeginsOneMore(hash: Hasher, ops: seq<Op>, op: Op, levels: map<TxnId, IsolationLevel>, clock: nat)
    requires RunAllowed(hash, ops) && OpenAt(Run(hash, ops), levels, clock)
    requires op.OpBegin? && op.id !in levels && op.startTs > clock && !op.isolation.IsDeferrable()
    ensures RunAllowed(hash, ops + [op])
    ensures OpenAt(Run(hash, ops + [op]), levels[op.id := op.isolation], op.startTs)
  {
    hide RunAllowed, Run, SsiBegun;
    OneMoreAllowed(hash, ops, op);
  }

  lemma ThreeBegun(hash: Hasher)
    ensures RunAllowed(hash, Begun()) && ThreeOpen(Run(hash, Begun()), 3)
  {
    var o1, o2, o3 := OpBegin(1, 1, Serializable), OpBegin(2, 2, Snapshot), OpBegin(3, 3, Serializable);
    NothingRun(hash);
    assert OpenAt(NewHistory, map[], 0);
    hide Run, RunAllowed, OpenAt;
    BeginsOneMore(hash, [], o1, map[], 0);
    assert [] + [o1] == [o1];
    BeginsOneMore(hash, [o1], o2, map[1 := Serializable], 1);
    BeginsOneMore(hash, [o1] + [o2], o3, map[1 := Serializable, 2 := Snapshot], 2);
  }

  lemma NothingRun(hash: Hasher)
    ensures RunAllowed(hash, []) && Run(hash, []) == NewHistory
  {
  }

  /** Reading and writing end nothing. */
  lemma StillThree(hash: Hasher, ops: seq<Op>, op: Op, clock: nat)
    requires RunAllowed(hash, ops) && ThreeOpen(Run(hash, ops), clock)
    requires (op.OpGet? || op.OpPut?) && op.id in {1, 2, 3}
    ensures RunAllowed(hash, ops + [op]) && ThreeOpen(Run(hash, ops + [op]), clock)
  {
    hide RunAllowed, Run, SsiState.RecordRead, SsiState.RecordWrite, WriteSet.Put;
    OneMoreAllowed(hash, ops, op);
  }

  lemma CrossedRun(hash: Hasher, a: bytes, b: bytes, v: bytes)
    ensures RunAllowed(hash, Crossed(a, b, v)) && ThreeOpen(Run(hash, Crossed(a, b, v)), 3)
  {
    hide RunAllowed, Run, Begun, ThreeOpen;
    ThreeBegun(hash);
    StillThree(hash, Begun(), OpGet(1, a), 3);
    StillThree(hash, Begun() + [OpGet(1, a)], OpPut(1, b, v, true), 3);
    StillThree(hash, Begun() + [OpGet(1, a)] + [OpPut(1, b, v, true)], OpPut(2, a, v, true), 3);
    StillThree(hash, Begun() + [OpGet(1, a)] + [OpPut(1, b, v, true)] + [OpPut(2, a, v, true)], OpGet(3, b), 3);
  }

  /** No commit, and no abort. */
  lemma NoCommit(hash: Hasher, ops: seq<Op>, op: Op, id: TxnId, key: bytes, ts: nat)
    requires op.OpBegin? || op.OpGet? || op.OpPut?
    ensures var ops' := ops + [op];
            && Asked(ops', id) ==
               (if op.OpBegin? && op.id == id then Some(Request(op.startTs, op.isolation)) else Asked(ops, id))
            && (HasWritten(ops', id, key) <==>
                  HasWritten(ops, id, key)
                  || (op.OpPut? && op.id == id && op.key == key && op.locked && AsksToWrite(ops, id)))
            && (HasRead(ops', id, key) <==>
                  HasRead(ops, id, key) || (op == OpGet(id, key) && Asked(ops, id).Some? && !HasWritten(ops, id, key)))
            && (Live(hash, ops', id) <==> Live(hash, ops, id) || (op.OpBegin? && op.id == id))
            && (HasPassed(hash, ops', id) <==> HasPassed(hash, ops, id))
            && (WrittenSince(hash, ops', key, ts) <==> WrittenSince(hash, ops, key, ts))
            && (HashWrittenSince(hash, ops', hash(key), ts) <==> HashWrittenSince(hash, ops, hash(key), ts))
  {
    hide Asked, OwnWrite, HasRead, Live, HasPassed, WrittenSince, HashWrittenSince;
    AskedMore(ops, op, id);
    OwnWriteMore(ops, op, id, key);
    HasReadMore(ops, op, id, key);
    LiveMore(hash, ops, op, id);
    HasPassedMore(hash, ops, op, id);
    WrittenMore(hash, ops, op, key, ts);
    HashWrittenMore(hash, ops, op, hash(key), ts);
  }

  lemma BegunKeys(hash: Hasher, id: TxnId, key: bytes, ts: nat)
    requires id in {1, 2, 3}
    ensures var ops := Begun();
            && Asked(ops, id) == Some(Request(id, if id == 2 then Snapshot else Serializable))
            && !HasWritten(ops, id, key) && !HasRead(ops, id, key)
            && Live(hash, ops, id) && !HasPassed(hash, ops, id)
            && !WrittenSince(hash, ops, key, ts) && !HashWrittenSince(hash, ops, hash(key), ts)
  {
    var o1, o2, o3 := OpBegin(1, 1, Serializable), OpBegin(2, 2, Snapshot), OpBegin(3, 3, Serializable);
    NothingDone(hash, id, key, ts);
    hide Asked, HasWritten, HasRead, Live, HasPassed, WrittenSince, HashWrittenSince;
    assert [] + [o1] == [o1];
    NoCommit(hash, [], o1, id, key, ts);
    NoCommit(hash, [o1], o2, id, key, ts);
    NoCommit(hash, [o1] + [o2], o3, id, key, ts);
  }

  lemma NothingDone(hash: Hasher, id: TxnId, key: bytes, ts: nat)
    ensures !HasWritten([], id, key) && !HasRead([], id, key) && !HasPassed(hash, [], id)
    ensures !WrittenSince(hash, [], key, ts) && !HashWrittenSince(hash, [], hash(key), ts)
  {
  }

  /** What the three have read and written so far. */
  ghost predicate CrossedFacts(hash: Hasher, ops: seq<Op>, a: bytes, b: bytes, id: TxnId, key: bytes) {
    && Asked(ops, id) == Some(Request(id, if id == 2 then Snapshot else Serializable))
    && (HasWritten(ops, id, key) <==> (id == 1 && key == b) || (id == 2 && key == a))
    && (HasRead(ops, id, key) <==> (id == 1 && key == a) || (id == 3 && key == b))
  }

  lemma CrossedKeys(hash: Hasher, a: bytes, b: bytes, v: bytes, id: TxnId, key: bytes, ts: nat)
    requires id in {1, 2, 3} && a != b
    ensures var ops := Crossed(a, b, v);
            && CrossedFacts(hash, ops, a, b, id, key) && Live(hash, ops, id) && !HasPassed(hash, ops, id)
            && !WrittenSince(hash, ops, key, ts) && !HashWrittenSince(hash, ops, hash(key), ts)
  {
    var p0 := Begun();
    var p1 := p0 + [OpGet(1, a)];
    var p2 := p1 + [OpPut(1, b, v, true)];
    var p3 := p2 + [OpPut(2, a, v, true)];
    hide Begun, Asked, HasWritten, HasRead, Live, HasPassed, WrittenSince, HashWrittenSince;
    BegunKeys(hash, id, key, ts);
    NoCommit(hash, p0, OpGet(1, a), id, key, ts);
    NoCommit(hash, p1, OpPut(1, b, v, true), id, key, ts);
    NoCommit(hash, p2, OpPut(2, a, v, true), id, key, ts);
    NoCommit(hash, p3, OpGet(3, b), id, key, ts);
  }

  /** A commit changes what was asked for, read or written by none. */
  lemma AfterCommit(hash: Hasher, ops: seq<Op>, op: Op, a: bytes, b: bytes, id: TxnId, key: bytes)
    requires op.OpCommit? && CrossedFacts(hash, ops, a, b, id, key)
    ensures CrossedFacts(hash, ops + [op], a, b, id, key)
  {
    hide Asked, OwnWrite, HasRead;
    AskedMore(ops, op, id);
    OwnWriteMore(ops, op, id, key);
    HasReadMore(ops, op, id, key);
  }

  /** The Snapshot transaction commits. */
  lemma SecondCommits(hash: Hasher, a: bytes, b: bytes, v: bytes, id: TxnId, key: bytes, ts: nat)
    requires id in {1, 3} && a != b
    ensures var ops := Crossed(a, b, v) + [OpCommit(2, 4)];
            && Commits(hash, Crossed(a, b, v), 2)
            && CrossedFacts(hash, ops, a, b, id, key) && Live(hash, ops, id) && !HasPassed(hash, ops, id)
            && (WrittenSince(hash, ops, key, ts) <==> ts < 4 && key == a)
            && !HashWrittenSince(hash, ops, hash(key), ts)
  {
    var ops, op := Crossed(a, b, v), OpCommit(2, 4);
    CrossedKeys(hash, a, b, v, id, key, ts);
    CrossedKeys(hash, a, b, v, 2, key, ts);
    AfterCommit(hash, ops, op, a, b, id, key);
    PassesIsLive(hash, ops, 2);
    assert Commits(hash, ops, 2);
    hide Crossed, Asked, HasWritten, HasRead, Live, HasPassed, WrittenSince, HashWrittenSince;
    LiveMore(hash, ops, op, id);
    HasPassedMore(hash, ops, op, id);
    WrittenMore(hash, ops, op, key, ts);
    HashWrittenMore(hash, ops, op, hash(key), ts);
  }

  /** Transaction 1 passes the first validation and fails the second. */
  lemma FirstIsRefused(hash: Hasher, a: bytes, b: bytes, v: bytes)
    requires a != b
    ensures var ops := Crossed(a, b, v) + [OpCommit(2, 4)];
            Passes(hash, ops, 1) && !Commits(hash, ops, 1) && HasWritten(ops, 1, b) && AsksToWrite(ops, 1)
  {
    hide Crossed;
    var ops := Crossed(a, b, v) + [OpCommit(2, 4)];
    forall key | HasRead(ops, 1, key) ensures !HashWrittenSince(hash, ops, hash(key), 1) {
      SecondCommits(hash, a, b, v, 1, key, 1);
    }
    SecondCommits(hash, a, b, v, 1, a, 1);
    SecondCommits(hash, a, b, v, 1, b, 1);
  }

  /** Transaction 3 is then refused for the write of 1 that nobody will ever see. */
  lemma ThirdIsRefused(hash: Hasher, a: bytes, b: bytes, v: bytes, key: bytes)
    requires a != b
    ensures var ops := Ghosted(a, b, v);
            && Live(hash, ops, 3) && AsksForSerializable(ops, 3) && !Commits(hash, ops, 3)
            && (HasRead(ops, 3, key) ==> !WrittenSince(hash, ops, key, Asked(ops, 3).value.startTs))
  {
    hide Crossed;
    var ops, op := Crossed(a, b, v) + [OpCommit(2, 4)], OpCommit(1, 5);
    FirstIsRefused(hash, a, b, v);
    SecondCommits(hash, a, b, v, 3, key, 3);
    SecondCommits(hash, a, b, v, 3, b, 3);
    AfterCommit(hash, ops, op, a, b, 3, key);
    AfterCommit(hash, ops, op, a, b, 3, b);
    LiveMore(hash, ops, op, 3);
    WrittenMore(hash, ops, op, key, 3);
    HashWrittenMore(hash, ops, op, hash(b), 3);
    hide WrittenSince, HasRead;
  }

  lemma StillThreeAfter(hash: Hasher, ops: seq<Op>, op: Op, clock: nat)
    requires RunAllowed(hash, ops) && ThreeOpen(Run(hash, ops), clock)
    requires op == OpCommit(2, 4) && clock == 3
    ensures RunAllowed(hash, ops + [op])
    ensures Allowed(Run(hash, ops + [op]), OpCommit(1, 5))
  {
    hide RunAllowed, Run, TxnRuns.Inv;
    RunKeepsInv(hash, ops);
    OneMoreAllowed(hash, ops, op);
    TxnsAfter(hash, Run(hash, ops), op, 1);
    ClockAfter(hash, Run(hash, ops), op);
    hide TxnRuns.Step, StatusOfCommit;
  }

  lemma GhostedRun(hash: Hasher, a: bytes, b: bytes, v: bytes)
    ensures RunAllowed(hash, Ghosted(a, b, v))
  {
    hide Crossed, RunAllowed, Run, ThreeOpen, Allowed;
    CrossedRun(hash, a, b, v);
    StillThreeAfter(hash, Crossed(a, b, v), OpCommit(2, 4), 3);
    OneMoreAllowed(hash, Crossed(a, b, v) + [OpCommit(2, 4)], OpCommit(1, 5));
  }

  /**
   Mixed with Snapshot, a Serializable transaction can be refused although no commit wrote what it read: the
   writes of one that passed the first validation stay there after it is refused by the second.
   */
  lemma RefusedForNothing(hash: Hasher, a: bytes, b: bytes, v: bytes)
    requires a != b
    ensures var ops := Ghosted(a, b, v);
            && RunAllowed(hash, ops) && Live(hash, ops, 3) && AsksForSerializable(ops, 3) && !Commits(hash, ops, 3)
            && forall key | HasRead(ops, 3, key) :: !WrittenSince(hash, ops, key, Asked(ops, 3).value.startTs)
  {
    hide Ghosted;
    GhostedRun(hash, a, b, v);
    forall key {
      ThirdIsRefused(hash, a, b, v, key);
    }
    ThirdIsRefused(hash, a, b, v, []);
  }
}
