/**
 What the lock table of crabstash-lock/src/lock_table.rs holds, as a value: the holders of each key,
 the range locks, and the escalation bookkeeping. Each operation is one function on that value.
 */
module LockState {
  import opened Bytes
  import opened Graph
  import opened LockModes
  import opened RangeLock

  type Holders = map<TxnId, LockMode>

  datatype LockError =
    | Timeout | Deadlocked | TransactionAborted | LockEscalationFailed
    | RangeConflict | RangeLocksDisabled | NotHeld | InvalidUpgrade

  datatype LockResult = Granted | Refused(error: LockError)

  datatype EscalationConfig = EscalationConfig(
    warningThreshold: nat,
    autoEscalateThreshold: nat,
    emergencyThreshold: nat)

  datatype LockConfig = LockConfig(enableRangeLocks: bool, escalation: EscalationConfig)

  datatype EscalationState = EscalationState(
    keyLockCount: nat,
    lockedKeys: seq<bytes>,
    escalated: bool,
    warningLogged: bool)

  datatype Locks = Locks(
    held: map<bytes, Holders>,
    ranges: set<RangeLockEntry>,
    escalation: map<TxnId, EscalationState>)

  const NewEscalation := EscalationState(0, [], false, false)

  // ---------------------------------------------------------------- conflicts

  function HoldersIn(held: map<bytes, Holders>, key: bytes): Holders {
    if key in held then held[key] else map[]
  }

  function HoldersOf(l: Locks, key: bytes): Holders {
    HoldersIn(l.held, key)
  }

  predicate CompatibleWithHolders(h: Holders, txnId: TxnId, mode: LockMode) {
    forall t | t in h :: t == txnId || mode.IsCompatible(h[t])
  }

  ghost predicate CompatibleWithRanges(l: Locks, txnId: TxnId, key: bytes, mode: LockMode) {
    forall r | r in l.ranges :: r.txnId == txnId || !r.ContainsKey(key) || mode.IsCompatible(r.mode)
  }

  /** The answer of `check_conflict`. */
  ghost predicate Conflicts(c: LockConfig, l: Locks, txnId: TxnId, key: bytes, mode: LockMode) {
    || !CompatibleWithHolders(HoldersOf(l, key), txnId, mode)
    || (c.enableRangeLocks && !CompatibleWithRanges(l, txnId, key, mode))
  }

  ghost predicate RangesAllow(l: Locks, txnId: TxnId, start: Bound, end: Bound, mode: LockMode) {
    forall r | r in l.ranges :: r.txnId == txnId || !r.Overlaps(start, end) || mode.IsCompatible(r.mode)
  }

  ghost predicate KeysAllow(held: map<bytes, Holders>, txnId: TxnId, start: Bound, end: Bound, mode: LockMode) {
    forall k | k in held && InRange(k, start, end) :: CompatibleWithHolders(held[k], txnId, mode)
  }

  ghost predicate RangeIsFree(l: Locks, txnId: TxnId, start: Bound, end: Bound, mode: LockMode) {
    RangesAllow(l, txnId, start, end, mode) && KeysAllow(l.held, txnId, start, end, mode)
  }

  // ---------------------------------------------------------------- operations

  /** A re-request that is no upgrade is granted without a change; anything else must suit the other holders. */
  function TryAcquire(h: Holders, txnId: TxnId, mode: LockMode): Option<Holders> {
    if txnId in h && (h[txnId] == mode || !h[txnId].CanUpgradeTo(mode)) then Some(h)
    else if CompatibleWithHolders(h, txnId, mode) then Some(h[txnId := mode])
    else None
  }

  ghost function LockRange(c: LockConfig, l: Locks, txnId: TxnId, start: Bound, end: Bound, mode: LockMode)
    : (Locks, LockResult)
  {
    if !c.enableRangeLocks then (l, Refused(RangeLocksDisabled))
    else if !RangeIsFree(l, txnId, start, end, mode) then (l, Refused(RangeConflict))
    else (l.(ranges := l.ranges + {RangeLockEntry(txnId, mode, start, end)}), Granted)
  }

  function MinKey(keys: seq<bytes>): (m: bytes)
    requires keys != []
    ensures m in keys
  {
    if |keys| == 1 then keys[0]
    else
      var m := MinKey(keys[1..]);
      if Lt(m, keys[0]) then m else keys[0]
  }

  function MaxKey(keys: seq<bytes>): (m: bytes)
    requires keys != []
    ensures m in keys
  {
    if |keys| == 1 then keys[0]
    else
      var m := MaxKey(keys[1..]);
      if Lt(m, keys[0]) then keys[0] else m
  }

  /** The bounding range of the locked keys contains every one of them. */
  lemma {:induction false} BoundingRangeContainsKeys(keys: seq<bytes>, k: bytes)
    requires k in keys
    ensures InRange(k, Included(MinKey(keys)), Included(MaxKey(keys)))
  {
    if |keys| > 1 {
      if k in keys[1..] {
        BoundingRangeContainsKeys(keys[1..], k);
        LtIsStrictTotalOrder();
      } else {
        LtIsStrictTotalOrder();
      }
    }
  }

  datatype EscalationAction = NoAction | Warn | Escalate | ForceEscalate

  function CheckEscalation(count: nat, c: EscalationConfig): EscalationAction {
    if count >= c.emergencyThreshold then ForceEscalate
    else if count >= c.autoEscalateThreshold then Escalate
    else if count >= c.warningThreshold then Warn
    else NoAction
  }

  /** The escalation state after an action, and whether the caller must take the range lock. */
  function HandleEscalation(action: EscalationAction, s: EscalationState): (EscalationState, bool) {
    match action
    case NoAction => (s, false)
    case Warn => (s.(warningLogged := true), false)
    case _ => (s.(escalated := true), !s.escalated)
  }

  /** The escalation state after one more key lock, and whether the locks now escalate. */
  function Noted(c: LockConfig, s: EscalationState, key: bytes): (r: (EscalationState, bool))
    ensures r.0.lockedKeys == s.lockedKeys + [key]
  {
    var s1 := s.(keyLockCount := s.keyLockCount + 1, lockedKeys := s.lockedKeys + [key]);
    HandleEscalation(CheckEscalation(s1.keyLockCount, c.escalation), s1)
  }

  /** Bookkeeping after a granted key lock; crossing a threshold takes one X lock over all keys locked so far. */
  ghost function RecordAcquired(c: LockConfig, l: Locks, txnId: TxnId, key: bytes): Locks {
    if txnId !in l.escalation then l
    else
      var (s, escalate) := Noted(c, l.escalation[txnId], key);
      var l2 := l.(escalation := l.escalation[txnId := s]);
      if escalate
      then LockRange(c, l2, txnId, Included(MinKey(s.lockedKeys)), Included(MaxKey(s.lockedKeys)), X).0
      else l2
  }

  ghost function LockKey(c: LockConfig, l: Locks, txnId: TxnId, key: bytes, mode: LockMode): (Locks, LockResult) {
    if c.enableRangeLocks && !CompatibleWithRanges(l, txnId, key, mode) then (l, Refused(RangeConflict))
    else
      match TryAcquire(HoldersOf(l, key), txnId, mode)
      case Some(h) => (RecordAcquired(c, l.(held := l.held[key := h]), txnId, key), Granted)
      case None => (l.(held := l.held[key := HoldersOf(l, key)]), Refused(Timeout))
  }

  function ReleasedHolders(held: map<bytes, Holders>, txnId: TxnId): map<bytes, Holders> {
    map k | k in held :: held[k] - {txnId}
  }

  function ReleaseAll(l: Locks, txnId: TxnId): Locks {
    Locks(ReleasedHolders(l.held, txnId),
          (set r | r in l.ranges && r.txnId != txnId),
          l.escalation - {txnId})
  }

  function RegisterTxn(l: Locks, txnId: TxnId): Locks {
    l.(escalation := l.escalation[txnId := NewEscalation])
  }

  // ---------------------------------------------------------------- safety

  /** `txnId` has a claim of mode `m` on `key`: it holds the key, or a range that contains it. */
  ghost predicate Covers(l: Locks, txnId: TxnId, key: bytes, m: LockMode) {
    || (txnId in HoldersOf(l, key) && HoldersOf(l, key)[txnId] == m)
    || (exists r :: r in l.ranges && r.txnId == txnId && r.mode == m && r.ContainsKey(key))
  }

  /** Two transactions with a claim on the same key have compatible claims. */
  ghost predicate Safe(l: Locks) {
    forall key, t1, t2, m1, m2 :: t1 != t2 && Covers(l, t1, key, m1) && Covers(l, t2, key, m2) ==> m1.IsCompatible(m2)
  }

  ghost predicate KeysSafe(l: Locks) {
    forall k, t | k in l.held && t in l.held[k] :: CompatibleWithHolders(l.held[k], t, l.held[k][t])
  }

  ghost predicate KeysAndRangesSafe(l: Locks) {
    forall k, t | k in l.held && t in l.held[k] :: CompatibleWithRanges(l, t, k, l.held[k][t])
  }

  ghost predicate RangesSafe(l: Locks) {
    forall r, key | r in l.ranges && r.ContainsKey(key) :: CompatibleWithRanges(l, r.txnId, key, r.mode)
  }

  /** The three kinds of pairs of claims. */
  ghost predicate PairwiseSafe(l: Locks) {
    KeysSafe(l) && KeysAndRangesSafe(l) && RangesSafe(l)
  }

  lemma PairwiseSafeIsSafe(l: Locks)
    ensures PairwiseSafe(l) <==> Safe(l)
  {
    if PairwiseSafe(l) {
      forall key, t1, t2, m1, m2 | t1 != t2 && Covers(l, t1, key, m1) && Covers(l, t2, key, m2)
        ensures m1.IsCompatible(m2)
      {
        CompatibilityIsSymmetric(m1, m2);
        PairIsCompatible(l, key, t1, t2, m1, m2);
      }
    }
    if Safe(l) {
      forall k, t | k in l.held && t in l.held[k]
        ensures CompatibleWithHolders(l.held[k], t, l.held[k][t]) && CompatibleWithRanges(l, t, k, l.held[k][t])
      {
        assert Covers(l, t, k, l.held[k][t]);
        forall u | u in l.held[k] && u != t ensures l.held[k][t].IsCompatible(l.held[k][u]) {
          assert Covers(l, u, k, l.held[k][u]);
        }
        SafeMeansRanges(l, t, k, l.held[k][t]);
      }
      forall r, key | r in l.ranges && r.ContainsKey(key) ensures CompatibleWithRanges(l, r.txnId, key, r.mode) {
        assert Covers(l, r.txnId, key, r.mode);
        SafeMeansRanges(l, r.txnId, key, r.mode);
      }
    }
  }

  lemma SafeMeansRanges(l: Locks, t: TxnId, key: bytes, m: LockMode)
    requires Safe(l) && Covers(l, t, key, m)
    ensures CompatibleWithRanges(l, t, key, m)
  {
    forall r | r in l.ranges && r.txnId != t && r.ContainsKey(key) ensures m.IsCompatible(r.mode) {
      assert Covers(l, r.txnId, key, r.mode);
    }
  }

  lemma PairIsCompatible(l: Locks, key: bytes, t1: TxnId, t2: TxnId, m1: LockMode, m2: LockMode)
    requires PairwiseSafe(l) && t1 != t2 && Covers(l, t1, key, m1) && Covers(l, t2, key, m2)
    ensures m1.IsCompatible(m2) || m2.IsCompatible(m1)
  {
    if t1 in HoldersOf(l, key) && HoldersOf(l, key)[t1] == m1 {
      assert CompatibleWithHolders(l.held[key], t1, m1);
      assert CompatibleWithRanges(l, t1, key, m1);
    } else if t2 in HoldersOf(l, key) && HoldersOf(l, key)[t2] == m2 {
      assert CompatibleWithRanges(l, t2, key, m2);
    } else {
      var r :| r in l.ranges && r.txnId == t1 && r.mode == m1 && r.ContainsKey(key);
      assert CompatibleWithRanges(l, r.txnId, key, r.mode);
    }
  }

  // ---------------------------------------------------------------- each step keeps the locks safe

  /** Granting `mode` on one key, checked against the other holders and the ranges. */
  lemma GrantKeepsSafe(l: Locks, txnId: TxnId, key: bytes, mode: LockMode)
    requires PairwiseSafe(l)
    requires CompatibleWithHolders(HoldersOf(l, key), txnId, mode) && CompatibleWithRanges(l, txnId, key, mode)
    ensures PairwiseSafe(l.(held := l.held[key := HoldersOf(l, key)[txnId := mode]]))
  {
    var h := HoldersOf(l, key);
    var h2: Holders := h[txnId := mode];
    var l2 := l.(held := l.held[key := h2]);
    forall k, t | k in l2.held && t in l2.held[k]
      ensures CompatibleWithHolders(l2.held[k], t, l2.held[k][t]) && CompatibleWithRanges(l2, t, k, l2.held[k][t])
    {
      if k == key && t != txnId {
        CompatibilityIsSymmetric(mode, h[t]);
        assert CompatibleWithHolders(h, t, h[t]) && CompatibleWithRanges(l, t, k, h[t]);
      } else if k != key {
        assert CompatibleWithHolders(l.held[k], t, l.held[k][t]) && CompatibleWithRanges(l, t, k, l.held[k][t]);
      }
    }
    assert RangesSafe(l2) by {
      forall r, k | r in l2.ranges && r.ContainsKey(k) ensures CompatibleWithRanges(l2, r.txnId, k, r.mode) {
        assert CompatibleWithRanges(l, r.txnId, k, r.mode);
      }
    }
  }

  /** An empty holder map for a key adds no claim. */
  lemma EmptyEntryKeepsSafe(l: Locks, key: bytes)
    requires PairwiseSafe(l)
    ensures PairwiseSafe(l.(held := l.held[key := HoldersOf(l, key)]))
  {
    var l2 := l.(held := l.held[key := HoldersOf(l, key)]);
    assert forall t, k, m :: CompatibleWithRanges(l2, t, k, m) <==> CompatibleWithRanges(l, t, k, m);
  }

  lemma EscalationIsNoClaim(l: Locks, e: map<TxnId, EscalationState>)
    requires PairwiseSafe(l)
    ensures PairwiseSafe(l.(escalation := e))
  {
    var l2 := l.(escalation := e);
    assert forall t, k, m :: CompatibleWithRanges(l2, t, k, m) <==> CompatibleWithRanges(l, t, k, m);
  }

  /** A granted range suits every other claim on a key it contains. */
  lemma LockRangeKeepsSafe(c: LockConfig, l: Locks, txnId: TxnId, start: Bound, end: Bound, mode: LockMode)
    requires PairwiseSafe(l)
    ensures PairwiseSafe(LockRange(c, l, txnId, start, end, mode).0)
  {
    if c.enableRangeLocks && RangeIsFree(l, txnId, start, end, mode) {
      var n := RangeLockEntry(txnId, mode, start, end);
      var l2 := l.(ranges := l.ranges + {n});
      forall k, t | k in l2.held && t in l2.held[k] ensures CompatibleWithRanges(l2, t, k, l2.held[k][t]) {
        assert CompatibleWithRanges(l, t, k, l.held[k][t]);
        CompatibilityIsSymmetric(mode, l.held[k][t]);
      }
      forall r, key | r in l2.ranges && r.ContainsKey(key) ensures CompatibleWithRanges(l2, r.txnId, key, r.mode) {
        NewRangeSuits(l, n, r, key);
      }
    }
  }

  lemma NewRangeSuits(l: Locks, n: RangeLockEntry, r: RangeLockEntry, key: bytes)
    requires RangesSafe(l) && RangeIsFree(l, n.txnId, n.start, n.end, n.mode)
    requires (r in l.ranges || r == n) && r.ContainsKey(key)
    ensures CompatibleWithRanges(l.(ranges := l.ranges + {n}), r.txnId, key, r.mode)
  {
    hide RangeLockEntry.Overlaps, InRange, LockMode.IsCompatible;
    if r in l.ranges {
      assert CompatibleWithRanges(l, r.txnId, key, r.mode);
    }
    forall q | q in l.ranges + {n} && q.txnId != r.txnId && q.ContainsKey(key) ensures r.mode.IsCompatible(q.mode) {
      if q == n {
        CommonKeyMeansOverlap(r, n.start, n.end, key);
        CompatibilityIsSymmetric(n.mode, r.mode);
      } else if r == n {
        CommonKeyMeansOverlap(q, n.start, n.end, key);
      }
    }
  }

  lemma LockKeyKeepsSafe(c: LockConfig, l: Locks, txnId: TxnId, key: bytes, mode: LockMode)
    requires PairwiseSafe(l) && (!c.enableRangeLocks ==> l.ranges == {})
    ensures PairwiseSafe(LockKey(c, l, txnId, key, mode).0)
  {
    hide PairwiseSafe, RecordAcquired;
    EmptyEntryKeepsSafe(l, key);
    if CompatibleWithRanges(l, txnId, key, mode) {
      if CompatibleWithHolders(HoldersOf(l, key), txnId, mode) {
        GrantKeepsSafe(l, txnId, key, mode);
      }
      var h := TryAcquire(HoldersOf(l, key), txnId, mode);
      if h.Some? {
        RecordKeepsSafe(c, l.(held := l.held[key := h.value]), txnId, key);
      }
    }
  }

  lemma RecordKeepsSafe(c: LockConfig, l: Locks, txnId: TxnId, key: bytes)
    requires PairwiseSafe(l)
    ensures PairwiseSafe(RecordAcquired(c, l, txnId, key))
  {
    hide PairwiseSafe, LockRange, Noted, MinKey, MaxKey;
    if txnId in l.escalation {
      var s := Noted(c, l.escalation[txnId], key).0;
      var l2 := l.(escalation := l.escalation[txnId := s]);
      EscalationIsNoClaim(l, l.escalation[txnId := s]);
      LockRangeKeepsSafe(c, l2, txnId, Included(MinKey(s.lockedKeys)), Included(MaxKey(s.lockedKeys)), X);
    }
  }

  lemma ReleaseKeepsSafe(l: Locks, txnId: TxnId)
    requires PairwiseSafe(l)
    ensures PairwiseSafe(ReleaseAll(l, txnId))
  {
    var l2 := ReleaseAll(l, txnId);
    forall k, t | k in l2.held && t in l2.held[k]
      ensures CompatibleWithHolders(l2.held[k], t, l2.held[k][t]) && CompatibleWithRanges(l2, t, k, l2.held[k][t])
    {
      assert CompatibleWithHolders(l.held[k], t, l.held[k][t]) && CompatibleWithRanges(l, t, k, l.held[k][t]);
    }
    forall r, key | r in l2.ranges && r.ContainsKey(key) ensures CompatibleWithRanges(l2, r.txnId, key, r.mode) {
      assert CompatibleWithRanges(l, r.txnId, key, r.mode);
    }
  }

  // ---------------------------------------------------------------- in-place upgrade

  /** The immediate outcome of `upgrade_lock`, which asks for X and does not look at range locks. */
  function UpgradeLock(l: Locks, txnId: TxnId, key: bytes): (Locks, LockResult) {
    if txnId !in HoldersOf(l, key) then (l, Refused(NotHeld))
    else if HoldersOf(l, key)[txnId] == X then (l, Granted)
    else if !HoldersOf(l, key)[txnId].CanUpgradeTo(X) then (l, Refused(InvalidUpgrade))
    else if CompatibleWithHolders(HoldersOf(l, key), txnId, X)
    then (l.(held := l.held[key := HoldersOf(l, key)[txnId := X]]), Granted)
    else (l, Refused(Timeout))
  }

  /** A granted upgrade keeps the locks safe precisely when no other transaction has a range over the key. */
  lemma UpgradeKeepsSafeExactly(l: Locks, txnId: TxnId, key: bytes)
    requires Safe(l) && UpgradeLock(l, txnId, key).1 == Granted
    ensures Safe(UpgradeLock(l, txnId, key).0) <==> forall r | r in l.ranges && r.ContainsKey(key) :: r.txnId == txnId
  {
    var l2 := UpgradeLock(l, txnId, key).0;
    assert Covers(l2, txnId, key, X);
    if r :| r in l.ranges && r.ContainsKey(key) && r.txnId != txnId {
      assert Covers(l2, r.txnId, key, r.mode);
    } else if l2 != l {
      PairwiseSafeIsSafe(l);
      GrantKeepsSafe(l, txnId, key, X);
      PairwiseSafeIsSafe(l2);
    }
  }

  // ---------------------------------------------------------------- runs

  datatype LockOp =
    | Register(txnId: TxnId)
    | Key(txnId: TxnId, key: bytes, mode: LockMode)
    | Range(txnId: TxnId, start: Bound, end: Bound, mode: LockMode)
    | Upgrade(txnId: TxnId, key: bytes)
    | Release(txnId: TxnId)

  const NoLocks := Locks(map[], {}, map[])

  ghost function Step(c: LockConfig, l: Locks, op: LockOp): Locks {
    match op
    case Register(t) => RegisterTxn(l, t)
    case Key(t, key, mode) => LockKey(c, l, t, key, mode).0
    case Range(t, start, end, mode) => LockRange(c, l, t, start, end, mode).0
    case Upgrade(t, key) => UpgradeLock(l, t, key).0
    case Release(t) => ReleaseAll(l, t)
  }

  ghost function Run(c: LockConfig, l: Locks, ops: seq<LockOp>): Locks
    decreases |ops|
  {
    if ops == [] then l else Run(c, Step(c, l, ops[0]), ops[1..])
  }

  ghost predicate Good(c: LockConfig, l: Locks) {
    PairwiseSafe(l) && (!c.enableRangeLocks ==> l.ranges == {})
  }

  /** The operation is no granted upgrade of a key inside another transaction's range. */
  ghost predicate ClearUpgrade(l: Locks, op: LockOp) {
    op.Upgrade? && UpgradeLock(l, op.txnId, op.key).1 == Granted
    ==> forall r | r in l.ranges && r.ContainsKey(op.key) :: r.txnId == op.txnId
  }

  ghost predicate UpgradesClear(c: LockConfig, l: Locks, ops: seq<LockOp>)
    decreases |ops|
  {
    ops == [] || (ClearUpgrade(l, ops[0]) && UpgradesClear(c, Step(c, l, ops[0]), ops[1..]))
  }

  ghost predicate SafeThroughout(c: LockConfig, l: Locks, ops: seq<LockOp>)
    decreases |ops|
  {
    Safe(l) && (ops == [] || SafeThroughout(c, Step(c, l, ops[0]), ops[1..]))
  }

  lemma StepKeepsGoodExactly(c: LockConfig, l: Locks, op: LockOp)
    requires Good(c, l)
    ensures Good(c, Step(c, l, op)) <==> ClearUpgrade(l, op)
  {
    hide PairwiseSafe, RangeIsFree;
    match op
    case Register(t) => EscalationIsNoClaim(l, l.escalation[t := NewEscalation]);
    case Key(t, key, mode) => LockKeyKeepsSafe(c, l, t, key, mode);
    case Range(t, start, end, mode) => LockRangeKeepsSafe(c, l, t, start, end, mode);
    case Release(t) => ReleaseKeepsSafe(l, t);
    case Upgrade(t, key) =>
      PairwiseSafeIsSafe(l);
      PairwiseSafeIsSafe(UpgradeLock(l, t, key).0);
      if UpgradeLock(l, t, key).1 == Granted {
        UpgradeKeepsSafeExactly(l, t, key);
      }
  }

  lemma {:induction false} GoodRun(c: LockConfig, l: Locks, ops: seq<LockOp>)
    requires Good(c, l)
    ensures SafeThroughout(c, l, ops) <==> UpgradesClear(c, l, ops)
    ensures UpgradesClear(c, l, ops) ==> Safe(Run(c, l, ops))
    decreases |ops|
  {
    hide PairwiseSafe, ClearUpgrade, Safe, Step;
    PairwiseSafeIsSafe(l);
    if ops != [] {
      StepKeepsGoodExactly(c, l, ops[0]);
      if ClearUpgrade(l, ops[0]) {
        GoodRun(c, Step(c, l, ops[0]), ops[1..]);
      } else {
        BrokenStep(c, l, ops[0]);
      }
    }
  }

  lemma BrokenStep(c: LockConfig, l: Locks, op: LockOp)
    requires Good(c, l) && !ClearUpgrade(l, op)
    ensures !Safe(Step(c, l, op))
  {
    hide PairwiseSafe;
    PairwiseSafeIsSafe(l);
    UpgradeKeepsSafeExactly(l, op.txnId, op.key);
  }

  lemma {:induction false} NoUpgradesClear(c: LockConfig, l: Locks, ops: seq<LockOp>)
    requires forall op | op in ops :: !op.Upgrade?
    ensures UpgradesClear(c, l, ops)
    decreases |ops|
  {
    hide Step;
    if ops != [] {
      NoUpgradesClear(c, Step(c, l, ops[0]), ops[1..]);
    }
  }

  /**
   Through a whole run, escalations included, claims of two transactions on one key are compatible
   precisely when no upgrade is granted inside another transaction's range.
   */
  lemma RunIsSafe(c: LockConfig, ops: seq<LockOp>)
    ensures SafeThroughout(c, NoLocks, ops) <==> UpgradesClear(c, NoLocks, ops)
    ensures UpgradesClear(c, NoLocks, ops) ==> Safe(Run(c, NoLocks, ops))
    ensures (forall op | op in ops :: !op.Upgrade?) ==> Safe(Run(c, NoLocks, ops))
  {
    GoodRun(c, NoLocks, ops);
    if forall op | op in ops :: !op.Upgrade? {
      NoUpgradesClear(c, NoLocks, ops);
    }
  }

  // ---------------------------------------------------------------- what a search may overlook

  /** The locks without the ranges that have no end, which a search past the sentinel may miss. */
  ghost function Ending(l: Locks): Locks {
    l.(ranges := set r | r in l.ranges && r.end != Unbounded)
  }

  ghost predicate EndsGiven(l: Locks) {
    forall r | r in l.ranges :: r.end != Unbounded
  }

  /** A search from `start` misses no range. */
  ghost predicate Sees(l: Locks, start: Bound) {
    WithinSentinel(start) || EndsGiven(l)
  }

  ghost function LockEndingRange(c: LockConfig, l: Locks, txnId: TxnId, start: Bound, end: Bound, mode: LockMode)
    : (Locks, LockResult)
  {
    var (l2, r) := LockRange(c, Ending(l), txnId, start, end, mode);
    (l2.(ranges := l.ranges + l2.ranges), r)
  }

  /** What the table may do with a range: it looks at all others, or past the sentinel at those with an end. */
  ghost predicate RangeOutcome(c: LockConfig, l: Locks, txnId: TxnId, start: Bound, end: Bound, mode: LockMode,
                               l2: Locks, r: LockResult)
  {
    || (l2, r) == LockRange(c, l, txnId, start, end, mode)
    || (!WithinSentinel(start) && (l2, r) == LockEndingRange(c, l, txnId, start, end, mode))
  }

  ghost predicate RecordOutcome(c: LockConfig, l: Locks, txnId: TxnId, key: bytes, l2: Locks) {
    if txnId !in l.escalation then l2 == l
    else
      var (s, escalate) := Noted(c, l.escalation[txnId], key);
      var l1 := l.(escalation := l.escalation[txnId := s]);
      if escalate
      then
        var lo, hi := Included(MinKey(s.lockedKeys)), Included(MaxKey(s.lockedKeys));
        exists r :: RangeOutcome(c, l1, txnId, lo, hi, X, l2, r)
      else l2 == l1
  }

  /** The ranges do not stand in the way of the key, as far as the search can tell. */
  ghost predicate MayPass(l: Locks, txnId: TxnId, key: bytes, mode: LockMode) {
    || CompatibleWithRanges(l, txnId, key, mode)
    || (!WithinSentinel(Included(key)) && CompatibleWithRanges(Ending(l), txnId, key, mode))
  }

  ghost predicate MayCross(l: Locks, txnId: TxnId, start: Bound, end: Bound, mode: LockMode) {
    || RangesAllow(l, txnId, start, end, mode)
    || (!WithinSentinel(start) && RangesAllow(Ending(l), txnId, start, end, mode))
  }

  /** What the table may do with a key, its escalation included. */
  ghost predicate KeyOutcome(c: LockConfig, l: Locks, txnId: TxnId, key: bytes, mode: LockMode,
                             l2: Locks, r: LockResult)
  {
    if r == Refused(RangeConflict) then c.enableRangeLocks && !CompatibleWithRanges(l, txnId, key, mode) && l2 == l
    else
      && (c.enableRangeLocks ==> MayPass(l, txnId, key, mode))
      && match TryAcquire(HoldersOf(l, key), txnId, mode)
         case Some(h) => r == Granted && RecordOutcome(c, l.(held := l.held[key := h]), txnId, key, l2)
         case None => r == Refused(Timeout) && l2 == l.(held := l.held[key := HoldersOf(l, key)])
  }

  /** A range that is asked for where nothing is overlooked has its one exact outcome. */
  lemma SeenRangeIsExact(c: LockConfig, l: Locks, txnId: TxnId, start: Bound, end: Bound, mode: LockMode,
                         l2: Locks, r: LockResult)
    requires Sees(l, start)
    ensures RangeOutcome(c, l, txnId, start, end, mode, l2, r) <==> (l2, r) == LockRange(c, l, txnId, start, end, mode)
  {
    hide RangeIsFree;
    if !WithinSentinel(start) {
      assert Ending(l) == l;
      var l3 := LockRange(c, l, txnId, start, end, mode).0;
      assert l3.(ranges := l.ranges + l3.ranges) == l3;
    }
  }

  lemma {:induction false} MinKeyIsLeast(keys: seq<bytes>, key: bytes)
    requires key in keys && WithinSentinel(Included(key))
    ensures WithinSentinel(Included(MinKey(keys)))
  {
    BoundingRangeContainsKeys(keys, key);
    LtIsStrictTotalOrder();
  }

  lemma SeenRecordIsExact(c: LockConfig, l: Locks, txnId: TxnId, key: bytes, l2: Locks)
    requires Sees(l, Included(key))
    ensures RecordOutcome(c, l, txnId, key, l2) <==> l2 == RecordAcquired(c, l, txnId, key)
  {
    hide LockRange, RangeOutcome, MinKey, MaxKey, WithinSentinel;
    if txnId in l.escalation {
      var (s, escalate) := Noted(c, l.escalation[txnId], key);
      var l1 := l.(escalation := l.escalation[txnId := s]);
      var lo, hi := Included(MinKey(s.lockedKeys)), Included(MaxKey(s.lockedKeys));
      if WithinSentinel(Included(key)) {
        MinKeyIsLeast(s.lockedKeys, key);
      }
      forall r ensures RangeOutcome(c, l1, txnId, lo, hi, X, l2, r) <==> (l2, r) == LockRange(c, l1, txnId, lo, hi, X) {
        SeenRangeIsExact(c, l1, txnId, lo, hi, X, l2, r);
      }
      assert (l2, LockRange(c, l1, txnId, lo, hi, X).1) == LockRange(c, l1, txnId, lo, hi, X)
             <==> l2 == LockRange(c, l1, txnId, lo, hi, X).0;
    }
  }

  /** So has a key; the escalation that it brings about starts no later than the key. */
  lemma SeenKeyIsExact(c: LockConfig, l: Locks, txnId: TxnId, key: bytes, mode: LockMode, l2: Locks, r: LockResult)
    requires Sees(l, Included(key))
    ensures KeyOutcome(c, l, txnId, key, mode, l2, r) <==> (l2, r) == LockKey(c, l, txnId, key, mode)
  {
    hide CompatibleWithRanges, RecordOutcome, RecordAcquired, WithinSentinel, TryAcquire;
    if !WithinSentinel(Included(key)) {
      assert Ending(l) == l;
    }
    var h := TryAcquire(HoldersOf(l, key), txnId, mode);
    if h.Some? {
      SeenRecordIsExact(c, l.(held := l.held[key := h.value]), txnId, key, l2);
    }
  }

  /** What the table may do in one operation. */
  ghost predicate Outcome(c: LockConfig, l: Locks, op: LockOp, l2: Locks) {
    match op
    case Key(t, key, mode) => exists r :: KeyOutcome(c, l, t, key, mode, l2, r)
    case Range(t, start, end, mode) => exists r :: RangeOutcome(c, l, t, start, end, mode, l2, r)
    case _ => l2 == Step(c, l, op)
  }

  predicate StartsWithinSentinel(op: LockOp) {
    (op.Key? ==> WithinSentinel(Included(op.key))) && (op.Range? ==> WithinSentinel(op.start))
  }

  predicate EndIsGiven(op: LockOp) {
    op.Range? ==> op.end != Unbounded
  }

  lemma SeenStepIsExact(c: LockConfig, l: Locks, op: LockOp, l2: Locks)
    requires StartsWithinSentinel(op) || EndsGiven(l)
    ensures Outcome(c, l, op, l2) <==> l2 == Step(c, l, op)
  {
    hide RangeOutcome, KeyOutcome, LockKey, LockRange, WithinSentinel;
    match op
    case Key(t, key, mode) =>
      forall r { SeenKeyIsExact(c, l, t, key, mode, l2, r); }
      assert l2 == Step(c, l, op) ==> (l2, LockKey(c, l, t, key, mode).1) == LockKey(c, l, t, key, mode);
    case Range(t, start, end, mode) =>
      forall r { SeenRangeIsExact(c, l, t, start, end, mode, l2, r); }
      var exact := LockRange(c, l, t, start, end, mode);
      assert l2 == Step(c, l, op) ==> (l2, exact.1) == exact;
    case _ =>
  }

  /** Escalations have an end, so that ranges without one come from range requests alone. */
  lemma StepKeepsEnds(c: LockConfig, l: Locks, op: LockOp)
    requires EndsGiven(l) && EndIsGiven(op)
    ensures EndsGiven(Step(c, l, op))
  {
    hide RangeIsFree, CompatibleWithRanges, TryAcquire, Noted, MinKey, MaxKey;
  }

  /** The states that a table may pass through. */
  ghost predicate TableRun(c: LockConfig, states: seq<Locks>, ops: seq<LockOp>) {
    && |states| == |ops| + 1
    && forall i | 0 <= i < |ops| :: Outcome(c, states[i], ops[i], states[i + 1])
  }

  lemma {:induction false} ExactRun(c: LockConfig, states: seq<Locks>, ops: seq<LockOp>)
    requires TableRun(c, states, ops)
    requires (forall op | op in ops :: StartsWithinSentinel(op))
             || (EndsGiven(states[0]) && forall op | op in ops :: EndIsGiven(op))
    ensures states[|ops|] == Run(c, states[0], ops)
    ensures (forall l | l in states :: Safe(l)) <==> SafeThroughout(c, states[0], ops)
    decreases |ops|
  {
    hide Outcome, Step, EndsGiven, EndIsGiven, StartsWithinSentinel, Safe;
    assert forall l | l in states :: l == states[0] || l in states[1..];
    if ops != [] {
      SeenStepIsExact(c, states[0], ops[0], states[1]);
      if EndsGiven(states[0]) && EndIsGiven(ops[0]) {
        StepKeepsEnds(c, states[0], ops[0]);
      }
      ExactRun(c, states[1..], ops[1..]);
    }
  }

  /**
   The table itself, with what its searches may overlook: when no operation starts past the sentinel, or
   every range that is asked for has an end, its states are those of `Run` and safe as said there.
   */
  lemma TableRunIsSafe(c: LockConfig, states: seq<Locks>, ops: seq<LockOp>)
    requires TableRun(c, states, ops) && states[0] == NoLocks
    requires (forall op | op in ops :: StartsWithinSentinel(op)) || (forall op | op in ops :: EndIsGiven(op))
    ensures states[|ops|] == Run(c, NoLocks, ops)
    ensures (forall l | l in states :: Safe(l)) <==> UpgradesClear(c, NoLocks, ops)
  {
    hide Outcome, Step, EndIsGiven, StartsWithinSentinel, Safe;
    ExactRun(c, states, ops);
    RunIsSafe(c, ops);
  }

  /** A request for a key keeps every table safe precisely when the key is not past the sentinel. */
  lemma KeyKeepsSafeIff(c: LockConfig, txnId: TxnId, key: bytes, mode: LockMode)
    requires c.enableRangeLocks
    ensures WithinSentinel(Included(key)) <==>
            forall l, l2, r :: Good(c, l) && KeyOutcome(c, l, txnId, key, mode, l2, r) ==> Safe(l2)
  {
    hide PairwiseSafe, KeyOutcome, WithinSentinel, Safe;
    if WithinSentinel(Included(key)) {
      forall l, l2, r | Good(c, l) && KeyOutcome(c, l, txnId, key, mode, l2, r) ensures Safe(l2) {
        SeenKeyIsExact(c, l, txnId, key, mode, l2, r);
        LockKeyKeepsSafe(c, l, txnId, key, mode);
        PairwiseSafeIsSafe(l2);
      }
    } else {
      var l, l2 := OverlookedRange(c, txnId, key, mode);
    }
  }

  lemma OverlookedRange(c: LockConfig, txnId: TxnId, key: bytes, mode: LockMode) returns (l: Locks, l2: Locks)
    requires !WithinSentinel(Included(key)) && c.enableRangeLocks
    ensures Good(c, l) && KeyOutcome(c, l, txnId, key, mode, l2, Granted) && !Safe(l2)
  {
    hide WithinSentinel;
    var other: TxnId := if txnId == 0 then 1 else 0;
    var e := RangeLockEntry(other, X, Unbounded, Unbounded);
    l := NoLocks.(ranges := {e});
    l2 := l.(held := map[key := map[txnId := mode]]);
    assert HoldersOf(l, key) == map[] && HoldersOf(l2, key) == map[txnId := mode];
    assert e.ContainsKey(key);
    assert Covers(l2, txnId, key, mode) && Covers(l2, other, key, X);
  }

  // ---------------------------------------------------------------- what single requests promise

  /** A key without a conflict is granted at once. */
  lemma NoConflictIsGranted(c: LockConfig, l: Locks, txnId: TxnId, key: bytes, mode: LockMode)
    requires !Conflicts(c, l, txnId, key, mode)
    ensures LockKey(c, l, txnId, key, mode).1 == Granted
    ensures txnId in HoldersOf(LockKey(c, l, txnId, key, mode).0, key)
  {
  }

  /** The bookkeeping touches no holder. */
  lemma RecordKeepsHeld(c: LockConfig, l: Locks, id: TxnId, key: bytes)
    ensures RecordAcquired(c, l, id, key).held == l.held
  {
    hide RangeIsFree;
  }

  /**
   A granted request leaves the requested mode behind exactly when it is new, repeated, or an upgrade
   that `CanUpgradeTo` lists; otherwise, as for X on top of SIX, the old mode stays.
   */
  lemma GrantedModeExactly(c: LockConfig, l: Locks, txnId: TxnId, key: bytes, mode: LockMode)
    requires LockKey(c, l, txnId, key, mode).1 == Granted
    ensures var h := HoldersOf(l, key);
            var h2 := HoldersOf(LockKey(c, l, txnId, key, mode).0, key);
            && txnId in h2
            && (h2[txnId] == mode <==> (txnId in h ==> h[txnId] == mode || h[txnId].CanUpgradeTo(mode)))
            && (forall t | t != txnId :: (t in h2 <==> t in h) && (t in h ==> h2[t] == h[t]))
  {
    hide RecordAcquired, CompatibleWithRanges, CompatibleWithHolders;
    var h := TryAcquire(HoldersOf(l, key), txnId, mode);
    RecordKeepsHeld(c, l.(held := l.held[key := h.value]), txnId, key);
  }

  /** The transaction has the key in a mode that it only asks for again, or does not move up from. */
  predicate Rerequests(h: Holders, txnId: TxnId, mode: LockMode) {
    txnId in h && (h[txnId] == mode || !Stronger(mode, h[txnId]) || (h[txnId].SIX? && mode.X?))
  }

  /** Nobody else has the key, or a range over it, in a mode that clashes. */
  ghost predicate NoClash(c: LockConfig, l: Locks, txnId: TxnId, key: bytes, mode: LockMode) {
    && (forall t | t in HoldersOf(l, key) && t != txnId :: !Clash(mode, HoldersOf(l, key)[t]))
    && NoRangeClash(c, l, txnId, key, mode)
  }

  ghost predicate NoRangeClash(c: LockConfig, l: Locks, txnId: TxnId, key: bytes, mode: LockMode) {
    c.enableRangeLocks ==> forall r | r in l.ranges && r.txnId != txnId && r.ContainsKey(key) :: !Clash(mode, r.mode)
  }

  /**
   A key is granted exactly when no other transaction has it, or a range over it, in a mode that clashes; a
   re-request minds ranges only. Refused, it times out, or meets a range.
   */
  lemma KeyIsGrantedExactly(c: LockConfig, l: Locks, txnId: TxnId, key: bytes, mode: LockMode)
    ensures var r := LockKey(c, l, txnId, key, mode).1;
            && (r == Granted <==>
                  NoRangeClash(c, l, txnId, key, mode)
                  && (Rerequests(HoldersOf(l, key), txnId, mode) || NoClash(c, l, txnId, key, mode)))
            && (r == Refused(RangeConflict) <==> !NoRangeClash(c, l, txnId, key, mode))
            && r in {Granted, Refused(RangeConflict), Refused(Timeout)}
  {
    hide RecordAcquired, LockMode.IsCompatible, LockMode.CanUpgradeTo, Clash, Stronger, RangeLockEntry.ContainsKey;
    forall a: LockMode, b: LockMode ensures a.IsCompatible(b) <==> !Clash(a, b) {
      CompatibleIffNoClash(a, b);
    }
    var h := HoldersOf(l, key);
    if txnId in h {
      UpgradeIffStronger(h[txnId], mode);
    }
  }

  /** `check_conflict` answers whether anybody else has the key, or a range over it, in a mode that clashes. */
  lemma ConflictIsClash(c: LockConfig, l: Locks, txnId: TxnId, key: bytes, mode: LockMode)
    ensures Conflicts(c, l, txnId, key, mode) <==> !NoClash(c, l, txnId, key, mode)
  {
    hide LockMode.IsCompatible, Clash, RangeLockEntry.ContainsKey;
    forall a: LockMode, b: LockMode ensures a.IsCompatible(b) <==> !Clash(a, b) {
      CompatibleIffNoClash(a, b);
    }
  }

  /** A range is granted exactly when nobody else has an overlapping range, or a key in it, in a mode that clashes. */
  lemma RangeIsGrantedExactly(c: LockConfig, l: Locks, txnId: TxnId, start: Bound, end: Bound, mode: LockMode)
    ensures LockRange(c, l, txnId, start, end, mode).1 == Granted <==>
            && c.enableRangeLocks
            && (forall r | r in l.ranges && r.txnId != txnId && r.Overlaps(start, end) :: !Clash(mode, r.mode))
            && (forall k, t | k in l.held && InRange(k, start, end) && t in l.held[k] && t != txnId ::
                  !Clash(mode, l.held[k][t]))
  {
    hide LockMode.IsCompatible, Clash, RangeLockEntry.Overlaps, InRange;
    forall a: LockMode, b: LockMode ensures a.IsCompatible(b) <==> !Clash(a, b) {
      CompatibleIffNoClash(a, b);
    }
  }

  /** Any number of transactions read a key together, where no range over it is written. */
  lemma ReadersShare(c: LockConfig, l: Locks, txnId: TxnId, key: bytes)
    requires forall t | t in HoldersOf(l, key) :: HoldersOf(l, key)[t] == S
    requires forall r | r in l.ranges && r.ContainsKey(key) :: r.mode == S
    ensures LockKey(c, l, txnId, key, S).1 == Granted
    ensures HoldersOf(LockKey(c, l, txnId, key, S).0, key) == HoldersOf(l, key)[txnId := S]
  {
    KeyIsGrantedExactly(c, l, txnId, key, S);
    GrantedModeExactly(c, l, txnId, key, S);
  }

  /** A transaction that reads a key alone, and is alone there, gets to write it. */
  lemma LoneReaderUpgrades(c: LockConfig, l: Locks, txnId: TxnId, key: bytes)
    requires HoldersOf(l, key) == map[txnId := S]
    requires forall r | r in l.ranges && r.ContainsKey(key) :: r.txnId == txnId
    ensures LockKey(c, l, txnId, key, X).1 == Granted
    ensures HoldersOf(LockKey(c, l, txnId, key, X).0, key) == map[txnId := X]
    ensures UpgradeLock(l, txnId, key).1 == Granted && HoldersOf(UpgradeLock(l, txnId, key).0, key) == map[txnId := X]
  {
    KeyIsGrantedExactly(c, l, txnId, key, X);
    GrantedModeExactly(c, l, txnId, key, X);
  }

  /**
   The bookkeeping of a granted key: one more key is counted, and the keys escalate once, when their number
   reaches a threshold; the range taken then runs from the least to the greatest key locked so far.
   */
  lemma EscalatesExactly(c: LockConfig, l: Locks, txnId: TxnId, key: bytes)
    requires txnId in l.escalation
    ensures var s, l2 := l.escalation[txnId], RecordAcquired(c, l, txnId, key);
            var n := s.keyLockCount + 1;
            var full := n >= c.escalation.autoEscalateThreshold || n >= c.escalation.emergencyThreshold;
            && l2.held == l.held && l2.escalation.Keys == l.escalation.Keys
            && l2.escalation[txnId].keyLockCount == n && l2.escalation[txnId].lockedKeys == s.lockedKeys + [key]
            && (l2.escalation[txnId].escalated <==> s.escalated || full)
            && (forall t | t in l.escalation && t != txnId :: l2.escalation[t] == l.escalation[t])
            && (!full || s.escalated ==> l2.ranges == l.ranges)
            && (full && !s.escalated ==>
                  exists lo, hi ::
                    && lo in s.lockedKeys + [key] && hi in s.lockedKeys + [key]
                    && (forall k | k in s.lockedKeys + [key] :: Le(lo, k) && Le(k, hi))
                    && l2.ranges == LockRange(c, l, txnId, Included(lo), Included(hi), X).0.ranges)
  {
    hide RangeIsFree, MinKey, MaxKey;
    var s := l.escalation[txnId];
    var keys := s.lockedKeys + [key];
    var (s2, escalate) := Noted(c, s, key);
    var l1 := l.(escalation := l.escalation[txnId := s2]);
    var lo, hi := MinKey(keys), MaxKey(keys);
    forall k | k in keys ensures Le(lo, k) && Le(k, hi) {
      BoundingRangeContainsKeys(keys, k);
    }
    SameRanges(c, l, l1, txnId, Included(lo), Included(hi), X);
  }

  /** Registering starts the count afresh, and changes no lock. */
  lemma RegisteredHasNothing(l: Locks, txnId: TxnId, t: TxnId)
    ensures var l2 := RegisterTxn(l, txnId);
            && l2.held == l.held && l2.ranges == l.ranges
            && txnId in l2.escalation && l2.escalation[txnId].keyLockCount == 0
            && l2.escalation[txnId].lockedKeys == [] && !l2.escalation[txnId].escalated
            && (t != txnId ==> (t in l2.escalation <==> t in l.escalation))
            && (t != txnId && t in l.escalation ==> l2.escalation[t] == l.escalation[t])
  {
  }

  /** Whether a range is granted does not depend on the bookkeeping. */
  lemma SameRanges(c: LockConfig, l: Locks, l1: Locks, txnId: TxnId, start: Bound, end: Bound, mode: LockMode)
    requires l1.held == l.held && l1.ranges == l.ranges
    ensures LockRange(c, l1, txnId, start, end, mode).0.ranges == LockRange(c, l, txnId, start, end, mode).0.ranges
  {
  }

  lemma SixToExclusiveKeepsSix(c: LockConfig, txnId: TxnId, key: bytes)
    ensures var l := Locks(map[key := map[txnId := SIX]], {}, map[]);
            && LockKey(c, l, txnId, key, X).1 == Granted
            && HoldersOf(LockKey(c, l, txnId, key, X).0, key)[txnId] == SIX
  {
    var l := Locks(map[key := map[txnId := SIX]], {}, map[]);
    assert CompatibleWithRanges(l, txnId, key, X);
    assert HoldersOf(l, key) == map[txnId := SIX];
  }

  /** Releasing removes every claim of the transaction and no claim of another. */
  lemma ReleaseRemovesExactly(l: Locks, txnId: TxnId, t: TxnId, key: bytes, m: LockMode)
    ensures Covers(ReleaseAll(l, txnId), t, key, m) <==> t != txnId && Covers(l, t, key, m)
    ensures t in ReleaseAll(l, txnId).escalation <==> t != txnId && t in l.escalation
  {
    var l2 := ReleaseAll(l, txnId);
    if t != txnId && exists r :: r in l.ranges && r.txnId == t && r.mode == m && r.ContainsKey(key) {
      var r :| r in l.ranges && r.txnId == t && r.mode == m && r.ContainsKey(key);
      assert r in l2.ranges;
    }
  }

  /** Two requests after which an upgrade to X is granted beside the range of another transaction. */
  lemma UpgradeBreaksSafe(c: LockConfig, key: bytes)
    requires c.enableRangeLocks
    ensures var l := Run(c, NoLocks, [Range(2, Unbounded, Unbounded, IS), Key(1, key, IS)]);
            UpgradeLock(l, 1, key).1 == Granted && !Safe(UpgradeLock(l, 1, key).0)
  {
    var ops := [Range(2, Unbounded, Unbounded, IS), Key(1, key, IS)];
    var r := RangeLockEntry(2, IS, Unbounded, Unbounded);
    var l1 := Step(c, NoLocks, ops[0]);
    assert l1 == NoLocks.(ranges := {r});
    var l2 := Step(c, l1, ops[1]);
    assert l2 == l1.(held := map[key := map[1 := IS]]);
    assert Run(c, NoLocks, ops) == l2 by {
      assert ops[1..][1..] == [];
      assert Run(c, l1, ops[1..]) == Run(c, l2, ops[1..][1..]);
    }
    assert r.ContainsKey(key);
    RunIsSafe(c, ops);
    UpgradeKeepsSafeExactly(l2, 1, key);
  }
}
