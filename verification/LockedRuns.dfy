/**
 Runs of the engine of crabstash-txn/src/mvcc.rs in which the lock table answers each write: what a
 transaction has written stays out of the reach of all others until it ends.
 */
module LockedRuns {
  import opened Bytes
  import opened Graph
  import opened LockModes
  import opened LockState
  import opened TxnState
  import opened TxnRuns

  // ---------------------------------------------------------------- runs

  /** What each engine operation asks of the lock manager. */
  ghost function LockStep(c: LockConfig, h: History, l: Locks, op: TxnRuns.Op): Locks
    requires Allowed(h, op)
  {
    match op
    case OpBegin(id, _, _) => RegisterTxn(l, id)
    case OpPut(id, key, _, _) => if h.engine.txns[id].isolation.IsReadOnly() then l else LockKey(c, l, id, key, X).0
    case OpDelete(id, key, _) => if h.engine.txns[id].isolation.IsReadOnly() then l else LockKey(c, l, id, key, X).0
    case OpCommit(id, commitTs) => if StatusOfCommit(h.engine, id, commitTs).Done? then ReleaseAll(l, id) else l
    case OpAbort(id) => ReleaseAll(l, id)
    case _ => l
  }

  /** The operation was given the answer of the lock table. */
  ghost predicate Answered(c: LockConfig, l: Locks, op: TxnRuns.Op) {
    op.OpPut? || op.OpDelete? ==> (op.locked <==> LockKey(c, l, op.id, op.key, X).1 == Granted)
  }

  ghost function LocksAfter(c: LockConfig, hash: Hasher, ops: seq<TxnRuns.Op>): Locks {
    if ops == [] then NoLocks
    else
      var h, op := TxnRuns.Run(hash, ops[..|ops| - 1]), ops[|ops| - 1];
      var l := LocksAfter(c, hash, ops[..|ops| - 1]);
      if Allowed(h, op) then LockStep(c, h, l, op) else l
  }

  ghost predicate RunAnswered(c: LockConfig, hash: Hasher, ops: seq<TxnRuns.Op>) {
    ops == [] ||
    (RunAnswered(c, hash, ops[..|ops| - 1]) && Answered(c, LocksAfter(c, hash, ops[..|ops| - 1]), ops[|ops| - 1]))
  }

  // ---------------------------------------------------------------- the invariant

  predicate IsOpen(h: History, id: TxnId) {
    id in h.engine.txns && h.engine.txns[id].state.Open?
  }

  function Writing(h: History, id: TxnId): set<bytes>
    requires id in h.engine.txns
  {
    h.engine.txns[id].writeSet.Keys()
  }

  /** The engine asks for X only. */
  ghost predicate OnlyExclusive(l: Locks) {
    forall k, t | k in l.held && t in l.held[k] :: l.held[k][t] == X
  }

  /** An open transaction holds every key it has written. */
  ghost predicate WritesHeld(h: History, l: Locks) {
    forall id, k | IsOpen(h, id) && k in Writing(h, id) :: id in HoldersOf(l, k)
  }

  ghost predicate LocksOk(c: LockConfig, h: History, l: Locks) {
    Good(c, l) && OnlyExclusive(l) && WritesHeld(h, l)
  }

  // ---------------------------------------------------------------- the locks

  /** A granted request leaves X behind, and the other holders as they were. */
  lemma LockedKey(c: LockConfig, l: Locks, id: TxnId, key: bytes)
    requires OnlyExclusive(l)
    ensures var (l', r) := LockKey(c, l, id, key, X);
            && OnlyExclusive(l')
            && (forall k, t | t in HoldersOf(l, k) :: t in HoldersOf(l', k))
            && (r == Granted ==> id in HoldersOf(l', key))
  {
    hide LockKey, RecordAcquired;
    var h := HoldersOf(l, key);
    var (l', r) := LockKey(c, l, id, key, X);
    LockedHolders(c, l, id, key);
    forall k, t | k in l'.held && t in l'.held[k] ensures l'.held[k][t] == X {
      assert t in HoldersOf(l', k);
    }
  }

  lemma LockedHolders(c: LockConfig, l: Locks, id: TxnId, key: bytes)
    requires OnlyExclusive(l)
    ensures var (l', r) := LockKey(c, l, id, key, X);
            && (forall k | k != key :: HoldersOf(l', k) == HoldersOf(l, k))
            && HoldersOf(l', key) == if r == Granted then HoldersOf(l, key)[id := X] else HoldersOf(l, key)
  {
    hide RecordAcquired, CompatibleWithRanges;
    var h := HoldersOf(l, key);
    var acquired := TryAcquire(h, id, X);
    if acquired.Some? {
      assert acquired.value == h[id := X];
      RecordKeepsHeld(c, l.(held := l.held[key := acquired.value]), id, key);
    }
  }

  lemma ReleasedOnly(l: Locks, id: TxnId)
    requires OnlyExclusive(l)
    ensures OnlyExclusive(ReleaseAll(l, id))
    ensures forall k, t | t != id && t in HoldersOf(l, k) :: t in HoldersOf(ReleaseAll(l, id), k)
  {
  }

  lemma LockStepGood(c: LockConfig, h: History, l: Locks, op: TxnRuns.Op)
    requires Allowed(h, op) && Good(c, l)
    ensures Good(c, LockStep(c, h, l, op))
  {
    hide Allowed, StatusOfCommit, PairwiseSafe, LockKey;
    match op
    case OpBegin(id, _, _) => EscalationIsNoClaim(l, l.escalation[id := NewEscalation]);
    case OpPut(id, key, _, _) => LockedGood(c, l, id, key);
    case OpDelete(id, key, _) => LockedGood(c, l, id, key);
    case OpCommit(id, _) => ReleaseKeepsSafe(l, id);
    case OpAbort(id) => ReleaseKeepsSafe(l, id);
    case _ =>
  }

  lemma LockedGood(c: LockConfig, l: Locks, id: TxnId, key: bytes)
    requires Good(c, l)
    ensures Good(c, LockKey(c, l, id, key, X).0)
  {
    StepKeepsGoodExactly(c, l, Key(id, key, X));
    hide Good, LockKey;
  }

  // ---------------------------------------------------------------- every step keeps it

  /** What an operation does to an open transaction: it may begin it, or add a key to its write set. */
  ghost predicate TxnFollows(h: History, h': History, op: TxnRuns.Op, id: TxnId)
    requires IsOpen(h', id)
  {
    if op.OpBegin? && op.id == id then Writing(h', id) == {}
    else
      && IsOpen(h, id)
      && (op.OpAbort? ==> op.id != id)
      && (op.OpCommit? && op.id in h.engine.txns && StatusOfCommit(h.engine, op.id, op.commitTs).Done? ==> op.id != id)
      && Writing(h', id) ==
         if (op.OpPut? || op.OpDelete?) && op.id == id && TxnRuns.Writes(h, id, op.locked)
         then Writing(h, id) + {op.key} else Writing(h, id)
  }

  lemma WriteTxns(hash: Hasher, h: History, op: TxnRuns.Op, id: TxnId)
    requires Allowed(h, op) && IsOpen(TxnRuns.Step(hash, h, op), id) && (op.OpPut? || op.OpDelete?)
    ensures TxnFollows(h, TxnRuns.Step(hash, h, op), op, id)
  {
    hide WriteSet.Keys, WriteSet.Put, WriteSet.Delete, SsiState.RecordWrite;
    WriteAddsKey(hash, h, op);
  }

  lemma CommitTxns(hash: Hasher, h: History, op: TxnRuns.Op, id: TxnId)
    requires Inv(h) && Allowed(h, op) && IsOpen(TxnRuns.Step(hash, h, op), id) && op.OpCommit?
    ensures TxnFollows(h, TxnRuns.Step(hash, h, op), op, id)
  {
    hide StatusOfCommit, WriteSet.Keys, WriteSet.ApplyTo, Commit, ProgramsOk, ActiveOk, RecordsOk, ReadsOk;
    if StatusOfCommit(h.engine, op.id, op.commitTs).Done? {
      DoneCommit(h.engine, op.id, op.commitTs, h.clock);
    } else {
      RefusalStep(hash, h, op);
      hide TxnRuns.Step;
    }
    hide Inv;
  }

  lemma OtherTxns(hash: Hasher, h: History, op: TxnRuns.Op, id: TxnId)
    requires Allowed(h, op) && IsOpen(TxnRuns.Step(hash, h, op), id)
    requires op.OpBegin? || op.OpGet? || op.OpAbort? || op.OpGc?
    ensures TxnFollows(h, TxnRuns.Step(hash, h, op), op, id)
  {
    assert NoWrites.Keys() == {};
    hide WriteSet.Keys, KeepAfter, SsiBegun, SsiState.RecordRead;
  }

  lemma StepTxns(hash: Hasher, h: History, op: TxnRuns.Op, id: TxnId)
    requires Inv(h) && Allowed(h, op) && IsOpen(TxnRuns.Step(hash, h, op), id)
    ensures TxnFollows(h, TxnRuns.Step(hash, h, op), op, id)
  {
    hide Inv, Allowed, TxnRuns.Step, TxnFollows, IsOpen;
    if op.OpPut? || op.OpDelete? {
      WriteTxns(hash, h, op, id);
    } else if op.OpCommit? {
      CommitTxns(hash, h, op, id);
    } else {
      OtherTxns(hash, h, op, id);
    }
  }

  /** A write that goes through adds its key to the write set. */
  lemma WriteAddsKey(hash: Hasher, h: History, op: TxnRuns.Op)
    requires Allowed(h, op) && (op.OpPut? || op.OpDelete?)
    ensures var h' := TxnRuns.Step(hash, h, op);
            if TxnRuns.Writes(h, op.id, op.locked) then
              Writing(h', op.id) == Writing(h, op.id) + {op.key}
            else h' == h
  {
    hide SsiState.RecordWrite;
  }

  lemma WriteKeepsHeld(c: LockConfig, hash: Hasher, h: History, l: Locks, op: TxnRuns.Op)
    requires Inv(h) && Allowed(h, op) && LocksOk(c, h, l) && Answered(c, l, op) && (op.OpPut? || op.OpDelete?)
    ensures OnlyExclusive(LockStep(c, h, l, op)) && WritesHeld(TxnRuns.Step(hash, h, op), LockStep(c, h, l, op))
  {
    hide Good, Inv, OnlyExclusive, HoldersOf, LockKey, TxnRuns.Step;
    LockedKey(c, l, op.id, op.key);
    var h', l' := TxnRuns.Step(hash, h, op), LockStep(c, h, l, op);
    assert l' == if h.engine.txns[op.id].isolation.IsReadOnly() then l else LockKey(c, l, op.id, op.key, X).0;
    hide LockStep;
    forall id, k | IsOpen(h', id) && k in Writing(h', id) ensures id in HoldersOf(l', k) {
      StepTxns(hash, h, op, id);
    }
  }

  lemma EndKeepsHeld(c: LockConfig, hash: Hasher, h: History, l: Locks, op: TxnRuns.Op)
    requires Inv(h) && Allowed(h, op) && LocksOk(c, h, l) && (op.OpCommit? || op.OpAbort?)
    ensures OnlyExclusive(LockStep(c, h, l, op)) && WritesHeld(TxnRuns.Step(hash, h, op), LockStep(c, h, l, op))
  {
    hide Good, Inv, OnlyExclusive, HoldersOf, ReleaseAll, TxnRuns.Step, StatusOfCommit;
    ReleasedOnly(l, op.id);
    var h', l' := TxnRuns.Step(hash, h, op), LockStep(c, h, l, op);
    forall id, k | IsOpen(h', id) && k in Writing(h', id) ensures id in HoldersOf(l', k) {
      StepTxns(hash, h, op, id);
    }
  }

  lemma OtherKeepsHeld(c: LockConfig, hash: Hasher, h: History, l: Locks, op: TxnRuns.Op)
    requires Inv(h) && Allowed(h, op) && LocksOk(c, h, l) && (op.OpBegin? || op.OpGet? || op.OpGc?)
    ensures OnlyExclusive(LockStep(c, h, l, op)) && WritesHeld(TxnRuns.Step(hash, h, op), LockStep(c, h, l, op))
  {
    hide Good, Inv, TxnRuns.Step;
    var h', l' := TxnRuns.Step(hash, h, op), LockStep(c, h, l, op);
    assert l'.held == l.held;
    hide LockStep;
    assert forall k :: HoldersOf(l', k) == HoldersOf(l, k);
    hide HoldersOf;
    forall id, k | IsOpen(h', id) && k in Writing(h', id) ensures id in HoldersOf(l', k) {
      StepTxns(hash, h, op, id);
    }
  }

  lemma StepKeepsLocks(c: LockConfig, hash: Hasher, h: History, l: Locks, op: TxnRuns.Op)
    requires Inv(h) && Allowed(h, op) && LocksOk(c, h, l) && Answered(c, l, op)
    ensures LocksOk(c, TxnRuns.Step(hash, h, op), LockStep(c, h, l, op))
  {
    hide Good, Inv, OnlyExclusive, WritesHeld, LockStep, TxnRuns.Step, Allowed, Answered;
    LockStepGood(c, h, l, op);
    if op.OpPut? || op.OpDelete? {
      WriteKeepsHeld(c, hash, h, l, op);
    } else if op.OpCommit? || op.OpAbort? {
      EndKeepsHeld(c, hash, h, l, op);
    } else {
      OtherKeepsHeld(c, hash, h, l, op);
    }
  }

  lemma {:induction false} RunKeepsLocks(c: LockConfig, hash: Hasher, ops: seq<TxnRuns.Op>)
    requires RunAllowed(hash, ops) && RunAnswered(c, hash, ops)
    ensures LocksOk(c, TxnRuns.Run(hash, ops), LocksAfter(c, hash, ops))
  {
    hide TxnRuns.Step, LockStep, Allowed, Answered, Inv;
    if ops == [] {
      NothingLocked(c);
    } else {
      var prefix := ops[..|ops| - 1];
      RunKeepsLocks(c, hash, prefix);
      RunKeepsInv(hash, prefix);
      StepKeepsLocks(c, hash, TxnRuns.Run(hash, prefix), LocksAfter(c, hash, prefix), ops[|ops| - 1]);
      hide LocksOk;
    }
  }

  lemma NothingLocked(c: LockConfig)
    ensures LocksOk(c, NewHistory, NoLocks)
  {
  }

  // ---------------------------------------------------------------- main results

  /** No key has two holders. */
  lemma OneHolder(c: LockConfig, l: Locks, key: bytes, a: TxnId, b: TxnId)
    requires Good(c, l) && OnlyExclusive(l) && a in HoldersOf(l, key) && b in HoldersOf(l, key)
    ensures a == b
  {
    assert CompatibleWithHolders(l.held[key], a, l.held[key][a]);
  }

  /** In every run, two open transactions have never written the same key. */
  lemma OpenWritesAreApart(c: LockConfig, hash: Hasher, ops: seq<TxnRuns.Op>, a: TxnId, b: TxnId)
    requires RunAllowed(hash, ops) && RunAnswered(c, hash, ops)
    requires IsOpen(TxnRuns.Run(hash, ops), a) && IsOpen(TxnRuns.Run(hash, ops), b) && a != b
    ensures Writing(TxnRuns.Run(hash, ops), a) !! Writing(TxnRuns.Run(hash, ops), b)
  {
    RunKeepsLocks(c, hash, ops);
    ApartNow(c, TxnRuns.Run(hash, ops), LocksAfter(c, hash, ops), a, b);
  }

  lemma ApartNow(c: LockConfig, h: History, l: Locks, a: TxnId, b: TxnId)
    requires LocksOk(c, h, l) && IsOpen(h, a) && IsOpen(h, b) && a != b
    ensures Writing(h, a) !! Writing(h, b)
  {
    if k :| k in Writing(h, a) && k in Writing(h, b) {
      hide Good, OnlyExclusive, HoldersOf;
      OneHolder(c, l, k, a, b);
    }
  }

  /** A write of a key that another open transaction has written is refused. */
  lemma OverlappingWriteIsRefused(c: LockConfig, hash: Hasher, ops: seq<TxnRuns.Op>, id: TxnId, other: TxnId,
                                  key: bytes)
    requires RunAllowed(hash, ops) && RunAnswered(c, hash, ops) && id != other
    requires IsOpen(TxnRuns.Run(hash, ops), other) && key in Writing(TxnRuns.Run(hash, ops), other)
    ensures LockKey(c, LocksAfter(c, hash, ops), id, key, X).1 != Granted
  {
    RunKeepsLocks(c, hash, ops);
    HeldIsRefused(c, TxnRuns.Run(hash, ops), LocksAfter(c, hash, ops), id, other, key);
  }

  lemma HeldIsRefused(c: LockConfig, h: History, l: Locks, id: TxnId, other: TxnId, key: bytes)
    requires LocksOk(c, h, l) && id != other && IsOpen(h, other) && key in Writing(h, other)
    ensures LockKey(c, l, id, key, X).1 != Granted
  {
    hide Good, OnlyExclusive, LockKey;
    HolderRefuses(c, l, id, other, key);
  }

  /** A key that is held is refused to everybody else. */
  lemma HolderRefuses(c: LockConfig, l: Locks, id: TxnId, holder: TxnId, key: bytes)
    requires Good(c, l) && OnlyExclusive(l) && holder in HoldersOf(l, key) && id != holder
    ensures LockKey(c, l, id, key, X).1 != Granted
  {
    hide Good, RecordAcquired, CompatibleWithRanges;
    if id in HoldersOf(l, key) {
      OneHolder(c, l, key, id, holder);
    }
  }

  /** A commit changes no key outside the write set. */
  lemma LoggedElsewhere(h: History, h': History, id: TxnId, key: bytes)
    requires TxnsOk(h) && Logged(h, h', id) && key !in Writing(h, id)
    ensures Lookup(h'.engine.store, key) == Lookup(h.engine.store, key)
  {
    hide WritesOf, ToValidate, RecordOf, ActiveOk;
  }

  /** A step of the run changes the stored value of no key that a still open transaction has written. */
  lemma StepKeepsWritten(c: LockConfig, hash: Hasher, h: History, l: Locks, op: TxnRuns.Op, id: TxnId, key: bytes)
    requires Inv(h) && Allowed(h, op) && LocksOk(c, h, l)
    requires IsOpen(h, id) && key in Writing(h, id) && IsOpen(TxnRuns.Step(hash, h, op), id)
    ensures Lookup(TxnRuns.Step(hash, h, op).engine.store, key) == Lookup(h.engine.store, key)
  {
    hide Good, LocksOk, LockKey;
    if !op.OpCommit? {
      QuietStep(hash, h, op);
    } else if StatusOfCommit(h.engine, op.id, op.commitTs).Done? {
      StepTxns(hash, h, op, id);
      CommitIsOfOpen(h, op);
      CommitStep(hash, h, op);
      ApartNow(c, h, l, op.id, id);
      assert key !in Writing(h, op.id);
      hide TxnRuns.Step, StatusOfCommit, Allowed;
      LoggedElsewhere(h, TxnRuns.Step(hash, h, op), op.id, key);
    } else {
      RefusalStep(hash, h, op);
    }
  }

  /** What was open after a step and is not new was open before, and its written keys still are. */
  lemma StillOpen(hash: Hasher, h: History, op: TxnRuns.Op, id: TxnId)
    requires Inv(h) && Allowed(h, op) && IsOpen(TxnRuns.Step(hash, h, op), id) && (op.OpBegin? ==> op.id != id)
    ensures IsOpen(h, id) && Writing(h, id) <= Writing(TxnRuns.Step(hash, h, op), id)
  {
    hide Inv, TxnRuns.Step, Allowed;
    StepTxns(hash, h, op, id);
  }

  /** The run before its last operation. */
  lemma LastOfRun(c: LockConfig, hash: Hasher, ops: seq<TxnRuns.Op>, init: seq<TxnRuns.Op>, op: TxnRuns.Op)
    requires RunAllowed(hash, ops + (init + [op])) && RunAnswered(c, hash, ops + (init + [op]))
    ensures RunAllowed(hash, ops + init) && RunAnswered(c, hash, ops + init)
    ensures var h := TxnRuns.Run(hash, ops + init);
            && Inv(h) && Allowed(h, op) && LocksOk(c, h, LocksAfter(c, hash, ops + init))
            && LocksAfter(c, hash, ops + (init + [op])) == LockStep(c, h, LocksAfter(c, hash, ops + init), op)
            && TxnRuns.Run(hash, ops).engine.txns.Keys <= h.engine.txns.Keys
            && TxnRuns.Run(hash, ops + (init + [op])) == TxnRuns.Step(hash, h, op)
  {
    hide TxnRuns.Step, Allowed, Answered, LocksOk, Inv, LockStep;
    assert (ops + (init + [op]))[..|ops + init|] == ops + init;
    RunKeepsInv(hash, ops + init);
    RunKeepsLocks(c, hash, ops + init);
    LogGrows(hash, ops, init);
  }

  /**
   Between a transaction's write of a key and its own end, nothing in the run changes the stored value of
   the key: what it overwrites when it commits is what was there when it wrote.
   */
  lemma {:induction false} WrittenKeyIsStable(c: LockConfig, hash: Hasher, ops: seq<TxnRuns.Op>, more: seq<TxnRuns.Op>,
                                              id: TxnId, key: bytes)
    requires RunAllowed(hash, ops + more) && RunAnswered(c, hash, ops + more)
    requires IsOpen(TxnRuns.Run(hash, ops), id) && key in Writing(TxnRuns.Run(hash, ops), id)
    requires IsOpen(TxnRuns.Run(hash, ops + more), id)
    ensures Lookup(TxnRuns.Run(hash, ops + more).engine.store, key) == Lookup(TxnRuns.Run(hash, ops).engine.store, key)
    ensures key in Writing(TxnRuns.Run(hash, ops + more), id)
    decreases |more|
  {
    hide TxnRuns.Run, RunAllowed, RunAnswered, LocksAfter;
    if more == [] {
      assert ops + more == ops;
    } else {
      var init, op := more[..|more| - 1], more[|more| - 1];
      assert more == init + [op];
      LastOfRun(c, hash, ops, init, op);
      var h, l := TxnRuns.Run(hash, ops + init), LocksAfter(c, hash, ops + init);
      assert op.OpBegin? ==> op.id != id;
      assert IsOpen(TxnRuns.Step(hash, h, op), id);
      hide LocksOk, Inv, TxnRuns.Step, Allowed, IsOpen, Writing;
      StillOpen(hash, h, op, id);
      WrittenKeyIsStable(c, hash, ops, init, id, key);
      StepKeepsWritten(c, hash, h, l, op, id, key);
    }
  }

  // ---------------------------------------------------------------- the engine asks for no range without an end

  lemma LockStepKeepsEnds(c: LockConfig, h: History, l: Locks, op: TxnRuns.Op)
    requires Allowed(h, op) && EndsGiven(l)
    ensures EndsGiven(LockStep(c, h, l, op))
  {
    hide Allowed, StatusOfCommit, LockKey, EndsGiven;
    match op
    case OpPut(id, key, _, _) => StepKeepsEnds(c, l, Key(id, key, X));
    case OpDelete(id, key, _) => StepKeepsEnds(c, l, Key(id, key, X));
    case _ => NoneAdded(l, LockStep(c, h, l, op));
  }

  lemma NoneAdded(l: Locks, l': Locks)
    requires EndsGiven(l)
    ensures l'.ranges <= l.ranges ==> EndsGiven(l')
  {
  }

  lemma {:induction false} EngineRangesEnd(c: LockConfig, hash: Hasher, ops: seq<TxnRuns.Op>)
    ensures EndsGiven(LocksAfter(c, hash, ops))
  {
    hide TxnRuns.Run, LockStep, Allowed, EndsGiven;
    if ops == [] {
      NoneAdded(NoLocks.(ranges := {}), NoLocks);
    } else {
      EngineRangesEnd(c, hash, ops[..|ops| - 1]);
      var h, op := TxnRuns.Run(hash, ops[..|ops| - 1]), ops[|ops| - 1];
      if Allowed(h, op) {
        LockStepKeepsEnds(c, h, LocksAfter(c, hash, ops[..|ops| - 1]), op);
      }
    }
  }

  /** What the lock table does with a write of the engine is what `LockKey` says, whatever the key. */
  lemma EngineLockIsExact(c: LockConfig, hash: Hasher, ops: seq<TxnRuns.Op>, id: TxnId, key: bytes,
                          l2: Locks, r: LockResult)
    ensures KeyOutcome(c, LocksAfter(c, hash, ops), id, key, X, l2, r) <==>
            (l2, r) == LockKey(c, LocksAfter(c, hash, ops), id, key, X)
  {
    hide LocksAfter, KeyOutcome, LockKey, EndsGiven;
    EngineRangesEnd(c, hash, ops);
    SeenKeyIsExact(c, LocksAfter(c, hash, ops), id, key, X, l2, r);
  }

  // ---------------------------------------------------------------- what has ended holds no lock

  /** Whoever holds a key or a range is open. */
  ghost predicate EndedHoldNothing(h: History, l: Locks) {
    && (forall k, t | k in l.held && t in l.held[k] :: IsOpen(h, t))
    && (forall r | r in l.ranges :: IsOpen(h, r.txnId))
  }

  /** A write that goes through, by a transaction that has ended. */
  predicate LateWrite(h: History, op: TxnRuns.Op) {
    (op.OpPut? || op.OpDelete?) && op.id in h.engine.txns && TxnRuns.Writes(h, op.id, op.locked) && !IsOpen(h, op.id)
  }

  /** The operation ends its transaction. */
  ghost predicate Ends(h: History, op: TxnRuns.Op)
    requires Allowed(h, op)
  {
    op.OpAbort? || (op.OpCommit? && StatusOfCommit(h.engine, op.id, op.commitTs).Done?)
  }

  /** Who is open after an operation: as before, but for the one it begins or ends. */
  lemma OpenAfter(hash: Hasher, h: History, op: TxnRuns.Op, t: TxnId)
    requires Inv(h) && Allowed(h, op)
    ensures IsOpen(TxnRuns.Step(hash, h, op), t) <==>
            (op.OpBegin? && op.id == t) || (IsOpen(h, t) && !(Ends(h, op) && op.id == t))
  {
    hide Inv, WriteSet.ApplyTo, WriteSet.Keys, WriteSet.Enter, StatusOfCommit, KeepAfter;
    if op.OpCommit? {
      OpenAfterCommit(hash, h, op, t);
    }
  }

  lemma OpenAfterCommit(hash: Hasher, h: History, op: TxnRuns.Op, t: TxnId)
    requires Inv(h) && Allowed(h, op) && op.OpCommit?
    ensures IsOpen(TxnRuns.Step(hash, h, op), t) <==> IsOpen(h, t) && !(Ends(h, op) && op.id == t)
  {
    hide StatusOfCommit, Commit, ProgramsOk, ActiveOk, RecordsOk, ReadsOk, Replay, SeriallyConsistent, WriteSet.ApplyTo;
    if StatusOfCommit(h.engine, op.id, op.commitTs).Done? {
      DoneCommit(h.engine, op.id, op.commitTs, h.clock);
    } else {
      RefusalStep(hash, h, op);
      hide TxnRuns.Step;
    }
  }

  /** The request brings in no holder but `id`, and none at all when it is refused. */
  lemma LockedByOne(c: LockConfig, l: Locks, id: TxnId, key: bytes)
    requires OnlyExclusive(l)
    ensures var (l', r) := LockKey(c, l, id, key, X);
            && (forall k, t | t in HoldersOf(l', k) :: t in HoldersOf(l, k) || (t == id && r == Granted))
            && (forall e | e in l'.ranges :: e in l.ranges || (e.txnId == id && r == Granted))
            && (r == Granted ==> id in HoldersOf(l', key))
  {
    hide LockKey;
    LockedHolders(c, l, id, key);
    LockedRanges(c, l, id, key);
  }

  lemma LockedRanges(c: LockConfig, l: Locks, id: TxnId, key: bytes)
    ensures var (l', r) := LockKey(c, l, id, key, X);
            forall e | e in l'.ranges :: e in l.ranges || (e.txnId == id && r == Granted)
  {
    hide Noted, MinKey, MaxKey, RangeIsFree, CompatibleWithRanges, CompatibleWithHolders;
  }

  /** The two halves of `EndedHoldNothing`, by key. */
  lemma HoldersOpen(h: History, l: Locks)
    ensures EndedHoldNothing(h, l) <==>
            (forall k, t | t in HoldersOf(l, k) :: IsOpen(h, t)) && (forall r | r in l.ranges :: IsOpen(h, r.txnId))
  {
    hide IsOpen;
    if forall k, t | t in HoldersOf(l, k) :: IsOpen(h, t) {
      forall k, t | k in l.held && t in l.held[k] ensures IsOpen(h, t) {
        assert t in HoldersOf(l, k);
      }
    }
  }

  /** A write by an open transaction, or one that does not go through, gives no lock to one that has ended. */
  lemma WriteEndedExactly(c: LockConfig, hash: Hasher, h: History, l: Locks, op: TxnRuns.Op)
    requires Inv(h) && Allowed(h, op) && OnlyExclusive(l) && Answered(c, l, op) && (op.OpPut? || op.OpDelete?)
    requires EndedHoldNothing(h, l)
    ensures EndedHoldNothing(TxnRuns.Step(hash, h, op), LockStep(c, h, l, op)) <==> !LateWrite(h, op)
  {
    hide Inv, OnlyExclusive, LockKey, TxnRuns.Step, EndedHoldNothing, HoldersOf, IsOpen;
    var h', l' := TxnRuns.Step(hash, h, op), LockStep(c, h, l, op);
    assert l' == if h.engine.txns[op.id].isolation.IsReadOnly() then l else LockKey(c, l, op.id, op.key, X).0;
    hide LockStep;
    LockedByOne(c, l, op.id, op.key);
    HoldersOpen(h, l);
    HoldersOpen(h', l');
    forall t ensures IsOpen(h', t) <==> IsOpen(h, t) {
      OpenAfter(hash, h, op, t);
    }
  }

  lemma ReleasedBy(l: Locks, id: TxnId)
    ensures forall k, t | t in HoldersOf(ReleaseAll(l, id), k) :: t in HoldersOf(l, k) && t != id
    ensures forall r | r in ReleaseAll(l, id).ranges :: r in l.ranges && r.txnId != id
  {
  }

  lemma OtherEnded(c: LockConfig, hash: Hasher, h: History, l: Locks, op: TxnRuns.Op)
    requires Inv(h) && Allowed(h, op) && !op.OpPut? && !op.OpDelete? && EndedHoldNothing(h, l)
    ensures EndedHoldNothing(TxnRuns.Step(hash, h, op), LockStep(c, h, l, op))
  {
    hide Inv, StatusOfCommit, ReleaseAll, TxnRuns.Step, EndedHoldNothing, HoldersOf, IsOpen;
    var h', l' := TxnRuns.Step(hash, h, op), LockStep(c, h, l, op);
    if Ends(h, op) {
      ReleasedBy(l, op.id);
    } else {
      SameHolders(c, h, l, op);
    }
    HoldersOpen(h, l);
    HoldersOpen(h', l');
    hide LockStep;
    forall t | IsOpen(h, t) && !(Ends(h, op) && op.id == t) ensures IsOpen(h', t) {
      OpenAfter(hash, h, op, t);
    }
  }

  lemma SameHolders(c: LockConfig, h: History, l: Locks, op: TxnRuns.Op)
    requires Allowed(h, op) && !op.OpPut? && !op.OpDelete? && !Ends(h, op)
    ensures LockStep(c, h, l, op).held == l.held && LockStep(c, h, l, op).ranges == l.ranges
    ensures forall k :: HoldersOf(LockStep(c, h, l, op), k) == HoldersOf(l, k)
  {
    hide StatusOfCommit;
  }

  /** One step keeps it precisely when it is no write of a transaction that has ended. */
  lemma StepEndedExactly(c: LockConfig, hash: Hasher, h: History, l: Locks, op: TxnRuns.Op)
    requires Inv(h) && Allowed(h, op) && LocksOk(c, h, l) && Answered(c, l, op) && EndedHoldNothing(h, l)
    ensures EndedHoldNothing(TxnRuns.Step(hash, h, op), LockStep(c, h, l, op)) <==> !LateWrite(h, op)
  {
    hide Good, Inv, Allowed, Answered, OnlyExclusive, WritesHeld, EndedHoldNothing, TxnRuns.Step, LockStep;
    if op.OpPut? || op.OpDelete? {
      WriteEndedExactly(c, hash, h, l, op);
    } else {
      OtherEnded(c, hash, h, l, op);
    }
  }

  ghost predicate NoLateWrites(hash: Hasher, ops: seq<TxnRuns.Op>) {
    ops == [] ||
    (NoLateWrites(hash, ops[..|ops| - 1]) && !LateWrite(TxnRuns.Run(hash, ops[..|ops| - 1]), ops[|ops| - 1]))
  }

  /** After every step of the run, nothing that has ended holds a key or a range. */
  ghost predicate EndedHoldNothingThroughout(c: LockConfig, hash: Hasher, ops: seq<TxnRuns.Op>) {
    && EndedHoldNothing(TxnRuns.Run(hash, ops), LocksAfter(c, hash, ops))
    && (ops == [] || EndedHoldNothingThroughout(c, hash, ops[..|ops| - 1]))
  }

  /**
   Through a whole run nothing that has ended holds a lock, precisely when every write that goes through
   is of an open transaction.
   */
  lemma {:induction false} EndedHoldNothingIff(c: LockConfig, hash: Hasher, ops: seq<TxnRuns.Op>)
    requires RunAllowed(hash, ops) && RunAnswered(c, hash, ops)
    ensures EndedHoldNothingThroughout(c, hash, ops) <==> NoLateWrites(hash, ops)
  {
    hide TxnRuns.Step, LockStep, Allowed, Answered, Inv, LocksOk, LateWrite, EndedHoldNothing;
    if ops == [] {
      assert EndedHoldNothing(NewHistory, NoLocks) by { NothingHeld(); }
    } else {
      var prefix := ops[..|ops| - 1];
      EndedHoldNothingIff(c, hash, prefix);
      RunKeepsInv(hash, prefix);
      RunKeepsLocks(c, hash, prefix);
      if EndedHoldNothingThroughout(c, hash, prefix) {
        StepEndedExactly(c, hash, TxnRuns.Run(hash, prefix), LocksAfter(c, hash, prefix), ops[|ops| - 1]);
      }
    }
  }

  lemma NothingHeld()
    ensures EndedHoldNothing(NewHistory, NoLocks)
  {
  }

  /** After a commit that was refused, the transaction is still open and holds what it held. */
  lemma RefusedCommitKeepsLocks(c: LockConfig, hash: Hasher, ops: seq<TxnRuns.Op>, op: TxnRuns.Op)
    requires RunAllowed(hash, ops + [op]) && RunAnswered(c, hash, ops + [op]) && op.OpCommit?
    ensures RunAllowed(hash, ops)
    ensures var h, h' := TxnRuns.Run(hash, ops), TxnRuns.Run(hash, ops + [op]);
            && op.id in h.engine.txns
            && (IsOpen(h, op.id) && !StatusOfCommit(h.engine, op.id, op.commitTs).Done? <==> IsOpen(h', op.id))
            && (IsOpen(h', op.id) ==> LocksAfter(c, hash, ops + [op]) == LocksAfter(c, hash, ops))
  {
    hide TxnRuns.Step, Inv, LocksOk, StatusOfCommit, IsOpen;
    assert (ops + [op])[..|ops|] == ops;
    RunKeepsInv(hash, ops);
    OpenAfter(hash, TxnRuns.Run(hash, ops), op, op.id);
  }

  // ---------------------------------------------------------------- a write that comes too late

  /** The lock of a transaction that has ended stays, but for its abort. */
  lemma StepKeepsEndedHolder(c: LockConfig, hash: Hasher, h: History, l: Locks, op: TxnRuns.Op, id: TxnId, key: bytes)
    requires Inv(h) && Allowed(h, op) && OnlyExclusive(l) && (op.OpAbort? ==> op.id != id)
    requires id in h.engine.txns && !IsOpen(h, id) && id in HoldersOf(l, key)
    ensures id in HoldersOf(LockStep(c, h, l, op), key)
    ensures id in TxnRuns.Step(hash, h, op).engine.txns && !IsOpen(TxnRuns.Step(hash, h, op), id)
  {
    hide Inv, OnlyExclusive, TxnRuns.Step, StatusOfCommit, HoldersOf, ReleaseAll, LockKey;
    OpenAfter(hash, h, op, id);
    StepGrowsLog(hash, h, op);
    if op.OpPut? || op.OpDelete? {
      LockedKey(c, l, op.id, op.key);
    } else if Ends(h, op) {
      if op.OpCommit? {
        EndsOpen(h, op);
      }
      ReleasedOnly(l, op.id);
    } else {
      SameHolders(c, h, l, op);
    }
  }

  lemma EndsOpen(h: History, op: TxnRuns.Op)
    requires Inv(h) && Allowed(h, op) && op.OpCommit? && Ends(h, op)
    ensures IsOpen(h, op.id)
  {
    hide StatusOfCommit, ProgramsOk, RecordsOk, ReadsOk, Replay, SeriallyConsistent;
    CommitIsOfOpen(h, op);
  }

  lemma {:induction false} EndedHolderStays(c: LockConfig, hash: Hasher, ops: seq<TxnRuns.Op>, more: seq<TxnRuns.Op>,
                                            id: TxnId, key: bytes)
    requires RunAllowed(hash, ops + more) && RunAnswered(c, hash, ops + more)
    requires id in TxnRuns.Run(hash, ops).engine.txns && !IsOpen(TxnRuns.Run(hash, ops), id)
    requires id in HoldersOf(LocksAfter(c, hash, ops), key) && OpAbort(id) !in more
    ensures var h := TxnRuns.Run(hash, ops + more);
            id in h.engine.txns && !IsOpen(h, id) && id in HoldersOf(LocksAfter(c, hash, ops + more), key)
    decreases |more|
  {
    hide TxnRuns.Run, RunAllowed, RunAnswered, LocksAfter, HoldersOf, IsOpen;
    if more == [] {
      assert ops + more == ops;
    } else {
      var init, op := more[..|more| - 1], more[|more| - 1];
      assert more == init + [op];
      LastOfRun(c, hash, ops, init, op);
      hide Inv, TxnRuns.Step, Allowed, LockStep, Good, OnlyExclusive, WritesHeld;
      EndedHolderStays(c, hash, ops, init, id, key);
      assert op.OpAbort? ==> op.id != id;
      StepKeepsEndedHolder(c, hash, TxnRuns.Run(hash, ops + init), LocksAfter(c, hash, ops + init), op, id, key);
    }
  }

  /**
   A write of a transaction that has ended keeps its key from all others until that transaction is aborted
   again, whatever else happens.
   */
  lemma LateWriteKeepsItsLock(c: LockConfig, hash: Hasher, ops: seq<TxnRuns.Op>, op: TxnRuns.Op, more: seq<TxnRuns.Op>,
                              other: TxnId)
    requires RunAllowed(hash, ops + [op] + more) && RunAnswered(c, hash, ops + [op] + more)
    requires LateWrite(TxnRuns.Run(hash, ops), op) && OpAbort(op.id) !in more && other != op.id
    ensures LockKey(c, LocksAfter(c, hash, ops + [op] + more), other, op.key, X).1 != Granted
  {
    hide TxnRuns.Run, RunAllowed, RunAnswered, LocksAfter, HoldersOf;
    PrefixOfRun(c, hash, ops + [op], more);
    LateWriteLocks(c, hash, ops, op);
    EndedHolderStays(c, hash, ops + [op], more, op.id, op.key);
    RunKeepsLocks(c, hash, ops + [op] + more);
    hide Good, OnlyExclusive, WritesHeld, LockKey;
    HolderRefuses(c, LocksAfter(c, hash, ops + [op] + more), other, op.id, op.key);
  }

  lemma {:induction false} PrefixOfRun(c: LockConfig, hash: Hasher, ops: seq<TxnRuns.Op>, more: seq<TxnRuns.Op>)
    requires RunAllowed(hash, ops + more) && RunAnswered(c, hash, ops + more)
    ensures RunAllowed(hash, ops) && RunAnswered(c, hash, ops)
    decreases |more|
  {
    hide Allowed, Answered;
    if more == [] {
      assert ops + more == ops;
    } else {
      assert (ops + more)[..|ops + more| - 1] == ops + more[..|more| - 1];
      PrefixOfRun(c, hash, ops, more[..|more| - 1]);
    }
  }

  lemma LateWriteLocks(c: LockConfig, hash: Hasher, ops: seq<TxnRuns.Op>, op: TxnRuns.Op)
    requires RunAllowed(hash, ops + [op]) && RunAnswered(c, hash, ops + [op]) && LateWrite(TxnRuns.Run(hash, ops), op)
    ensures op.id in TxnRuns.Run(hash, ops + [op]).engine.txns && !IsOpen(TxnRuns.Run(hash, ops + [op]), op.id)
    ensures op.id in HoldersOf(LocksAfter(c, hash, ops + [op]), op.key)
  {
    hide TxnRuns.Step, Inv, HoldersOf, LockKey, Good, WritesHeld;
    assert (ops + [op])[..|ops|] == ops;
    var h, l := TxnRuns.Run(hash, ops), LocksAfter(c, hash, ops);
    RunKeepsInv(hash, ops);
    RunKeepsLocks(c, hash, ops);
    hide OnlyExclusive;
    LockedByOne(c, l, op.id, op.key);
    OpenAfter(hash, h, op, op.id);
    StepGrowsLog(hash, h, op);
  }

  lemma RunOneMore(c: LockConfig, hash: Hasher, ops: seq<TxnRuns.Op>, op: TxnRuns.Op)
    requires RunAllowed(hash, ops) && RunAnswered(c, hash, ops) && Allowed(TxnRuns.Run(hash, ops), op)
    requires Answered(c, LocksAfter(c, hash, ops), op)
    ensures RunAllowed(hash, ops + [op]) && RunAnswered(c, hash, ops + [op])
    ensures TxnRuns.Run(hash, ops + [op]) == TxnRuns.Step(hash, TxnRuns.Run(hash, ops), op)
    ensures LocksAfter(c, hash, ops + [op]) == LockStep(c, TxnRuns.Run(hash, ops), LocksAfter(c, hash, ops), op)
  {
    hide Allowed, Answered, TxnRuns.Step, LockStep;
    assert (ops + [op])[..|ops|] == ops;
  }

  function Ended(): seq<TxnRuns.Op> {
    [OpBegin(1, 1, Snapshot)] + [OpBegin(2, 2, Snapshot)] + [OpAbort(1)]
  }

  /** One of two transactions is open. */
  predicate OneAborted(h: History) {
    && h.engine.txns.Keys == {1, 2} && h.engine.txns[1].isolation.Snapshot?
    && h.engine.txns[1].state.Aborted? && h.engine.txns[2].state.Open?
  }

  lemma BothBegun(hash: Hasher, h: History)
    requires h == TxnRuns.Step(hash, NewHistory, OpBegin(1, 1, Snapshot))
    ensures Allowed(h, OpBegin(2, 2, Snapshot))
    ensures Allowed(TxnRuns.Step(hash, h, OpBegin(2, 2, Snapshot)), OpAbort(1))
    ensures OneAborted(TxnRuns.Step(hash, TxnRuns.Step(hash, h, OpBegin(2, 2, Snapshot)), OpAbort(1)))
  {
  }

  lemma AbortedLocks(c: LockConfig, h1: History, h2: History)
    requires Allowed(NewHistory, OpBegin(1, 1, Snapshot)) && Allowed(h1, OpBegin(2, 2, Snapshot))
    requires Allowed(h2, OpAbort(1))
    ensures var l1 := LockStep(c, NewHistory, NoLocks, OpBegin(1, 1, Snapshot));
            var l := LockStep(c, h2, LockStep(c, h1, l1, OpBegin(2, 2, Snapshot)), OpAbort(1));
            l.held == map[] && l.ranges == {}
  {
    hide Allowed;
  }

  lemma OneBegun(c: LockConfig, hash: Hasher, op: TxnRuns.Op)
    requires Allowed(NewHistory, op) && op.OpBegin?
    ensures RunAllowed(hash, [op]) && RunAnswered(c, hash, [op])
    ensures TxnRuns.Run(hash, [op]) == TxnRuns.Step(hash, NewHistory, op)
    ensures LocksAfter(c, hash, [op]) == LockStep(c, NewHistory, NoLocks, op)
  {
    hide Allowed, TxnRuns.Step, LockStep;
    assert TxnRuns.Run(hash, []) == NewHistory && LocksAfter(c, hash, []) == NoLocks;
    assert [op][..0] == [];
  }

  lemma AbortedRun(c: LockConfig, hash: Hasher)
    ensures RunAllowed(hash, Ended()) && RunAnswered(c, hash, Ended()) && OneAborted(TxnRuns.Run(hash, Ended()))
    ensures LocksAfter(c, hash, Ended()).held == map[] && LocksAfter(c, hash, Ended()).ranges == {}
  {
    hide TxnRuns.Run, RunAllowed, RunAnswered, LocksAfter, TxnRuns.Step, LockStep, OneAborted;
    var one, two, abort := OpBegin(1, 1, Snapshot), OpBegin(2, 2, Snapshot), OpAbort(1);
    assert Allowed(NewHistory, one);
    hide Allowed;
    OneBegun(c, hash, one);
    BothBegun(hash, TxnRuns.Run(hash, [one]));
    RunOneMore(c, hash, [one], two);
    RunOneMore(c, hash, [one] + [two], abort);
    AbortedLocks(c, TxnRuns.Run(hash, [one]), TxnRuns.Run(hash, [one] + [two]));
  }

  lemma FreeIsGranted(c: LockConfig, l: Locks, id: TxnId, key: bytes)
    requires l.held == map[] && l.ranges == {}
    ensures LockKey(c, l, id, key, X).1 == Granted
  {
    hide RecordAcquired;
  }

  /** Transaction 1 is aborted beside transaction 2, and then writes a key. */
  function LateRun(key: bytes, value: bytes): seq<TxnRuns.Op> {
    Ended() + [OpPut(1, key, value, true)]
  }

  /** After it the aborted transaction holds the key, and the open one cannot write it. */
  lemma LateRunBlocks(c: LockConfig, hash: Hasher, key: bytes, value: bytes)
    ensures var ops := LateRun(key, value);
            && RunAllowed(hash, ops) && RunAnswered(c, hash, ops) && !EndedHoldNothingThroughout(c, hash, ops)
            && IsOpen(TxnRuns.Run(hash, ops), 2) && !IsOpen(TxnRuns.Run(hash, ops), 1)
            && 1 in HoldersOf(LocksAfter(c, hash, ops), key)
            && LockKey(c, LocksAfter(c, hash, ops), 2, key, X).1 != Granted
  {
    hide TxnRuns.Run, RunAllowed, RunAnswered, LocksAfter, LockKey, HoldersOf, TxnRuns.Step, LockStep;
    var h, l, op := TxnRuns.Run(hash, Ended()), LocksAfter(c, hash, Ended()), OpPut(1, key, value, true);
    AbortedRun(c, hash);
    FreeIsGranted(c, l, 1, key);
    assert Allowed(h, op) && LateWrite(h, op) && IsOpen(h, 2);
    RunOneMore(c, hash, Ended(), op);
    LateWriteLocks(c, hash, Ended(), op);
    EndedIsLate(c, hash, Ended(), op);
    assert Ended() + [op] + [] == Ended() + [op];
    LateWriteKeepsItsLock(c, hash, Ended(), op, [], 2);
    RunKeepsInv(hash, Ended());
    OpenAfter(hash, h, op, 2);
  }

  lemma EndedIsLate(c: LockConfig, hash: Hasher, ops: seq<TxnRuns.Op>, op: TxnRuns.Op)
    requires RunAllowed(hash, ops + [op]) && RunAnswered(c, hash, ops + [op]) && LateWrite(TxnRuns.Run(hash, ops), op)
    ensures !EndedHoldNothingThroughout(c, hash, ops + [op])
  {
    hide TxnRuns.Run, RunAllowed, RunAnswered, LocksAfter, LateWrite, EndedHoldNothingThroughout;
    EndedHoldNothingIff(c, hash, ops + [op]);
    assert (ops + [op])[..|ops|] == ops;
  }
}
