/** Key lock entries (crabstash-lock/src/lock_entry.rs) and the lock table (lock_table.rs) over them. */
module LockTables {
  import opened Bytes
  import opened Graph
  import opened LockModes
  import opened RangeLock
  import opened LockState
  import opened Deadlock

  /** `VecDeque::retain` of every other waiter. */
  function RemoveWaiter(queue: seq<TxnId>, txnId: TxnId): seq<TxnId> {
    if queue == [] then []
    else (if queue[0] != txnId then [queue[0]] else []) + RemoveWaiter(queue[1..], txnId)
  }

  class LockEntry {
    const key: bytes
    var holders: Holders
    var waitQueue: seq<TxnId>

    constructor (key: bytes)
      ensures this.key == key && holders == map[] && waitQueue == []
    {
      this.key := key;
      holders, waitQueue := map[], [];
    }

    method IsCompatibleWithHolders(txnId: TxnId, mode: LockMode) returns (ok: bool)
      ensures ok <==> CompatibleWithHolders(holders, txnId, mode)
    {
      var remaining := holders.Keys;
      while remaining != {}
        invariant remaining <= holders.Keys
        invariant forall t | t in holders && t !in remaining :: t == txnId || mode.IsCompatible(holders[t])
        decreases remaining
      {
        var t :| t in remaining;
        if t != txnId && !mode.IsCompatible(holders[t]) {
          return false;
        }
        remaining := remaining - {t};
      }
      ok := true;
    }

    method TryAcquireLock(txnId: TxnId, mode: LockMode) returns (ok: bool)
      modifies this`holders
      ensures ok <==> TryAcquire(old(holders), txnId, mode).Some?
      ensures holders == if ok then TryAcquire(old(holders), txnId, mode).value else old(holders)
    {
      if txnId in holders && (holders[txnId] == mode || !holders[txnId].CanUpgradeTo(mode)) {
        return true;
      }
      ok := IsCompatibleWithHolders(txnId, mode);
      if ok {
        holders := holders[txnId := mode];
      }
    }

    /** A request that no other step overtakes: it is granted at once or runs into its deadline. */
    method Acquire(txnId: TxnId, mode: LockMode) returns (r: LockResult)
      modifies this
      ensures r == Granted <==> TryAcquire(old(holders), txnId, mode).Some?
      ensures r == Granted ==> holders == TryAcquire(old(holders), txnId, mode).value && waitQueue == old(waitQueue)
      ensures r != Granted ==> r == Refused(Timeout) && holders == old(holders)
      ensures r != Granted ==> waitQueue == RemoveWaiter(old(waitQueue), txnId)
    {
      var ok := TryAcquireLock(txnId, mode);
      if ok {
        return Granted;
      }
      waitQueue := waitQueue + [txnId];
      ok := IsCompatibleWithHolders(txnId, mode);
      RemoveLastWaiter(old(waitQueue), txnId);
      waitQueue := RemoveWaiter(waitQueue, txnId);
      if ok {
        holders := holders[txnId := mode];
        return Granted;
      }
      r := Refused(Timeout);
    }

    /** The immediate outcome of an in-place upgrade. */
    method Upgrade(txnId: TxnId, target: LockMode) returns (r: LockResult)
      modifies this
      ensures txnId !in old(holders) ==> r == Refused(NotHeld)
      ensures txnId in old(holders) && old(holders)[txnId] == target ==> r == Granted
      ensures txnId in old(holders) && old(holders)[txnId] != target && !old(holders)[txnId].CanUpgradeTo(target)
              ==> r == Refused(InvalidUpgrade)
      ensures txnId in old(holders) && old(holders)[txnId].CanUpgradeTo(target)
              ==> r == if CompatibleWithHolders(old(holders), txnId, target) then Granted else Refused(Timeout)
      ensures holders == if r == Granted then old(holders)[txnId := target] else old(holders)
      ensures waitQueue ==
              if txnId in old(holders) && old(holders)[txnId] != target && old(holders)[txnId].CanUpgradeTo(target)
                           then RemoveWaiter(old(waitQueue), txnId) else old(waitQueue)
    {
      if txnId !in holders {
        return Refused(NotHeld);
      }
      if holders[txnId] == target {
        return Granted;
      }
      if !holders[txnId].CanUpgradeTo(target) {
        return Refused(InvalidUpgrade);
      }
      waitQueue := [txnId] + waitQueue;
      var ok := true;
      var remaining := holders.Keys;
      while remaining != {}
        invariant holders == old(holders) && remaining <= holders.Keys && waitQueue == [txnId] + old(waitQueue)
        invariant ok ==> forall t | t in holders && t !in remaining :: t == txnId || target.IsCompatible(holders[t])
        invariant !ok ==> !CompatibleWithHolders(holders, txnId, target)
        decreases remaining
      {
        var t :| t in remaining;
        CompatibilityIsSymmetric(holders[t], target);
        if t != txnId && !holders[t].IsCompatible(target) {
          ok := false;
        }
        remaining := remaining - {t};
      }
      waitQueue := RemoveWaiter(waitQueue, txnId);
      if ok {
        holders := holders[txnId := target];
        return Granted;
      }
      r := Refused(Timeout);
    }

    method Release(txnId: TxnId) returns (removed: bool)
      modifies this`holders
      ensures removed <==> txnId in old(holders)
      ensures holders == old(holders) - {txnId}
    {
      removed := txnId in holders;
      holders := holders - {txnId};
    }
  }

  lemma {:induction false} RemoveLastWaiter(queue: seq<TxnId>, txnId: TxnId)
    ensures RemoveWaiter(queue + [txnId], txnId) == RemoveWaiter(queue, txnId)
  {
    if queue == [] {
      assert queue + [txnId] == [txnId];
    } else {
      assert (queue + [txnId])[1..] == queue[1..] + [txnId];
      RemoveLastWaiter(queue[1..], txnId);
    }
  }

  // ---------------------------------------------------------------- the table

  lemma {:induction false} ContainingKeyMembers(es: seq<RangeLockEntry>, key: bytes, e: RangeLockEntry)
    ensures e in ContainingKey(es, key) <==> e in es && e.ContainsKey(key)
  {
    if es != [] {
      ContainingKeyMembers(es[1..], key, e);
    }
  }

  /** One more key of the held ones, against a range that is asked for. */
  lemma OneMoreAllowed(held: map<bytes, Holders>, remaining: set<bytes>, k: bytes, txnId: TxnId,
                       start: Bound, end: Bound, mode: LockMode)
    requires k in held && k in remaining
    ensures KeysAllow(held - (remaining - {k}), txnId, start, end, mode) <==>
            KeysAllow(held - remaining, txnId, start, end, mode)
            && (InRange(k, start, end) ==> CompatibleWithHolders(held[k], txnId, mode))
    ensures InRange(k, start, end) && !CompatibleWithHolders(held[k], txnId, mode) ==>
              !KeysAllow(held, txnId, start, end, mode)
  {
    hide InRange, CompatibleWithHolders;
  }

  lemma NothingHeld(txnId: TxnId, start: Bound, end: Bound, mode: LockMode)
    ensures KeysAllow(map[], txnId, start, end, mode)
  {
  }

  /** Whether an entry of another transaction is incompatible. */
  method AnyIncompatible(entries: seq<RangeLockEntry>, txnId: TxnId, mode: LockMode) returns (found: bool)
    ensures found <==> exists e :: e in entries && e.txnId != txnId && !mode.IsCompatible(e.mode)
  {
    for i := 0 to |entries|
      invariant forall j | 0 <= j < i :: entries[j].txnId == txnId || mode.IsCompatible(entries[j].mode)
    {
      if entries[i].txnId != txnId && !mode.IsCompatible(entries[i].mode) {
        return true;
      }
    }
    found := false;
  }

  lemma FoundForKey(l: Locks, found: seq<RangeLockEntry>, txnId: TxnId, key: bytes, mode: LockMode)
    requires forall e | e in found :: e in l.ranges && e.ContainsKey(key)
    requires forall e | e in l.ranges && e.ContainsKey(key) ::
               e.end != Unbounded || WithinSentinel(Included(key)) ==> e in found
    ensures var conflict := exists e :: e in found && e.txnId != txnId && !mode.IsCompatible(e.mode);
            if conflict then !CompatibleWithRanges(l, txnId, key, mode) else MayPass(l, txnId, key, mode)
  {
    hide WithinSentinel, RangeLockEntry.ContainsKey;
  }

  lemma FoundForRange(l: Locks, found: seq<RangeLockEntry>, txnId: TxnId, start: Bound, end: Bound, mode: LockMode)
    requires forall e | e in found :: e in l.ranges && e.Overlaps(start, end)
    requires forall e | e in l.ranges && e.Overlaps(start, end) ::
               e.end != Unbounded || WithinSentinel(start) ==> e in found
    ensures var conflict := exists e :: e in found && e.txnId != txnId && !mode.IsCompatible(e.mode);
            if conflict then !RangesAllow(l, txnId, start, end, mode) else MayCross(l, txnId, start, end, mode)
  {
    hide WithinSentinel, RangeLockEntry.Overlaps;
  }

  /** What the two answers mean for a range. */
  lemma RangeDecided(c: LockConfig, l: Locks, txnId: TxnId, start: Bound, end: Bound, mode: LockMode)
    ensures !c.enableRangeLocks ==> RangeOutcome(c, l, txnId, start, end, mode, l, Refused(RangeLocksDisabled))
    ensures c.enableRangeLocks && !RangeIsFree(l, txnId, start, end, mode) ==>
              RangeOutcome(c, l, txnId, start, end, mode, l, Refused(RangeConflict))
    ensures c.enableRangeLocks && MayCross(l, txnId, start, end, mode) && KeysAllow(l.held, txnId, start, end, mode) ==>
              RangeOutcome(c, l, txnId, start, end, mode,
                           l.(ranges := l.ranges + {RangeLockEntry(txnId, mode, start, end)}), Granted)
  {
    hide WithinSentinel, RangesAllow, KeysAllow;
    var e := RangeLockEntry(txnId, mode, start, end);
    assert l.ranges + (Ending(l).ranges + {e}) == l.ranges + {e};
  }

  class LockTable {
    const config: LockConfig
    var keyLocks: map<bytes, LockEntry>
    const rangeLocks: IntervalTree
    const waiterGraph: WaitForGraph
    var escalationState: map<TxnId, EscalationState>

    ghost predicate Valid()
      reads this, rangeLocks, waiterGraph
    {
      && rangeLocks.Valid()
      && NoSelfEdges(waiterGraph.edges)
      && KeysMatch()
    }

    ghost predicate KeysMatch()
      reads this`keyLocks
    {
      forall k | k in keyLocks :: keyLocks[k].key == k
    }

    ghost function Held(): map<bytes, Holders>
      reads this`keyLocks, keyLocks.Values
    {
      map k | k in keyLocks :: keyLocks[k].holders
    }

    ghost function View(): Locks
      reads this, keyLocks.Values, rangeLocks
      requires rangeLocks.Valid()
    {
      Locks(Held(), Elems(rangeLocks.Contents()), escalationState)
    }

    constructor (config: LockConfig)
      ensures Valid() && View() == NoLocks && this.config == config
      ensures fresh(rangeLocks) && fresh(waiterGraph) && keyLocks == map[]
    {
      this.config := config;
      keyLocks := map[];
      escalationState := map[];
      rangeLocks := new IntervalTree();
      waiterGraph := new WaitForGraph();
    }

    method RegisterTransaction(txnId: TxnId, startTs: u64, priority: u32)
      requires Valid()
      modifies this`escalationState, waiterGraph`txnInfo
      ensures Valid() && View() == RegisterTxn(old(View()), txnId)
      ensures waiterGraph.txnInfo == old(waiterGraph.txnInfo)[txnId := TxnInfo(startTs, 0, priority)]
    {
      hide IntervalTree.Valid, NoSelfEdges, KeysMatch, Held, Elems;
      waiterGraph.RegisterTxn(txnId, startTs, priority);
      escalationState := escalationState[txnId := NewEscalation];
    }

    /** Whether a range of another transaction over the key is incompatible. */
    method RangeConflicts(txnId: TxnId, key: bytes, mode: LockMode) returns (conflict: bool)
      requires Valid()
      ensures conflict ==> !CompatibleWithRanges(View(), txnId, key, mode)
      ensures !conflict ==> MayPass(View(), txnId, key, mode)
    {
      hide IntervalTree.Valid, NoSelfEdges, KeysMatch, Held, RangeLockEntry.ContainsKey;
      var conflicting := rangeLocks.FindContainingKey(key);
      forall e
        ensures WithinSentinel(Included(key)) && e in rangeLocks.Contents() && e.ContainsKey(key) ==> e in conflicting
      {
        ContainingKeyMembers(rangeLocks.Contents(), key, e);
      }
      ghost var l := View();
      assert forall e :: e in l.ranges <==> e in rangeLocks.Contents();
      hide LockTable.Valid, LockTable.View;
      conflict := AnyIncompatible(conflicting, txnId, mode);
      FoundForKey(l, conflicting, txnId, key, mode);
    }

    method CheckConflict(txnId: TxnId, key: bytes, mode: LockMode) returns (conflict: bool)
      requires Valid()
      ensures conflict ==> Conflicts(config, View(), txnId, key, mode)
      ensures !conflict ==> CompatibleWithHolders(HoldersOf(View(), key), txnId, mode)
      ensures !conflict && config.enableRangeLocks ==> MayPass(View(), txnId, key, mode)
      ensures Sees(View(), Included(key)) ==> (conflict <==> Conflicts(config, View(), txnId, key, mode))
    {
      if key in keyLocks {
        var ok := keyLocks[key].IsCompatibleWithHolders(txnId, mode);
        if !ok {
          return true;
        }
      }
      conflict := false;
      if config.enableRangeLocks {
        conflict := RangeConflicts(txnId, key, mode);
      }
    }

    /** Whether a holder of a key inside the range is incompatible. */
    method HeldKeysConflict(txnId: TxnId, start: Bound, end: Bound, mode: LockMode) returns (conflict: bool)
      requires KeysMatch()
      ensures conflict <==> !KeysAllow(Held(), txnId, start, end, mode)
    {
      hide InRange, CompatibleWithHolders, KeysAllow;
      ghost var held := Held();
      assert held.Keys == keyLocks.Keys;
      assert forall k | k in keyLocks :: keyLocks[k].key == k && keyLocks[k].holders == held[k];
      hide Held, KeysMatch;
      var remaining := keyLocks.Keys;
      assert held - remaining == map[];
      assert KeysAllow(map[], txnId, start, end, mode) by { NothingHeld(txnId, start, end, mode); }
      while remaining != {}
        invariant remaining <= keyLocks.Keys && KeysAllow(held - remaining, txnId, start, end, mode)
        decreases remaining
      {
        var k :| k in remaining;
        OneMoreAllowed(held, remaining, k, txnId, start, end, mode);
        var entry := keyLocks[k];
        if InRange(entry.key, start, end) {
          var ok := entry.IsCompatibleWithHolders(txnId, mode);
          if !ok {
            return true;
          }
        }
        remaining := remaining - {k};
      }
      assert held - {} == held;
      conflict := false;
    }

    /** Whether an overlapping range of another transaction is incompatible. */
    method OverlapConflicts(txnId: TxnId, start: Bound, end: Bound, mode: LockMode) returns (conflict: bool)
      requires Valid()
      ensures conflict ==> !RangesAllow(View(), txnId, start, end, mode)
      ensures !conflict ==> MayCross(View(), txnId, start, end, mode)
    {
      hide IntervalTree.Valid, NoSelfEdges, KeysMatch, Held, RangeLockEntry.Overlaps, Overlapping, Search;
      var overlapping := rangeLocks.FindOverlapping(start, end);
      forall e
        ensures WithinSentinel(start) && e in rangeLocks.Contents() && e.Overlaps(start, end) ==> e in overlapping
      {
        OverlappingMembers(rangeLocks.Contents(), start, end, e);
      }
      ghost var l := View();
      assert forall e :: e in l.ranges <==> e in rangeLocks.Contents();
      hide LockTable.Valid, LockTable.View;
      conflict := AnyIncompatible(overlapping, txnId, mode);
      FoundForRange(l, overlapping, txnId, start, end, mode);
    }

    method LockRangeOf(txnId: TxnId, start: Bound, end: Bound, mode: LockMode) returns (r: LockResult)
      requires Valid()
      modifies rangeLocks
      ensures Valid()
      ensures RangeOutcome(config, old(View()), txnId, start, end, mode, View(), r)
    {
      ghost var l := View();
      hide Valid, View, MayCross, KeysAllow, RangeIsFree, RangeOutcome;
      RangeDecided(config, l, txnId, start, end, mode);
      if !config.enableRangeLocks {
        return Refused(RangeLocksDisabled);
      }
      var conflict := RangeIsTaken(txnId, start, end, mode);
      if conflict {
        return Refused(RangeConflict);
      }
      AddRange(RangeLockEntry(txnId, mode, start, end));
      r := Granted;
    }

    /** Whether an overlapping range or a key in the range is in the way. */
    method RangeIsTaken(txnId: TxnId, start: Bound, end: Bound, mode: LockMode) returns (conflict: bool)
      requires Valid()
      ensures conflict ==> !RangeIsFree(View(), txnId, start, end, mode)
      ensures !conflict ==> MayCross(View(), txnId, start, end, mode) && KeysAllow(View().held, txnId, start, end, mode)
    {
      hide Valid, View, RangesAllow, KeysAllow, MayCross;
      conflict := OverlapConflicts(txnId, start, end, mode);
      if !conflict {
        conflict := KeysConflict(txnId, start, end, mode);
      }
    }

    method KeysConflict(txnId: TxnId, start: Bound, end: Bound, mode: LockMode) returns (conflict: bool)
      requires Valid()
      ensures conflict <==> !KeysAllow(View().held, txnId, start, end, mode)
    {
      hide IntervalTree.Valid, NoSelfEdges, KeysMatch, Held, KeysAllow;
      conflict := HeldKeysConflict(txnId, start, end, mode);
    }

    method AddRange(entry: RangeLockEntry)
      requires Valid()
      modifies rangeLocks
      ensures Valid() && View() == old(View()).(ranges := old(View()).ranges + {entry})
    {
      hide IntervalTree.Valid, NoSelfEdges, KeysMatch, Held, InsertEntry, Elems;
      InsertAddsMember(rangeLocks.Contents(), entry);
      rangeLocks.Insert(entry);
    }

    method RecordLockAcquired(txnId: TxnId, key: bytes)
      requires Valid()
      modifies this`escalationState, rangeLocks, waiterGraph`txnInfo
      ensures Valid()
      ensures RecordOutcome(config, old(View()), txnId, key, View())
    {
      ghost var l := View();
      assert l.escalation == escalationState;
      hide Valid, View, RangeOutcome, Noted, MinKey, MaxKey;
      if txnId in escalationState {
        var escalate := NoteKeyLock(txnId, key);
        if escalate {
          EscalateToRange(txnId);
        }
      }
      CountLock(txnId);
    }

    /** Counts the key lock and notes the key; the answer is whether the locks now escalate. */
    method NoteKeyLock(txnId: TxnId, key: bytes) returns (escalate: bool)
      requires Valid() && txnId in escalationState
      modifies this`escalationState
      ensures Valid()
      ensures var s := old(escalationState)[txnId];
              var (s2, e) := Noted(config, s, key);
              && escalate == e && escalationState == old(escalationState)[txnId := s2]
              && View() == old(View()).(escalation := escalationState) && s2.lockedKeys == s.lockedKeys + [key]
    {
      hide IntervalTree.Valid, NoSelfEdges, KeysMatch, Held, Elems, CheckEscalation;
      var state := escalationState[txnId];
      state := state.(keyLockCount := state.keyLockCount + 1, lockedKeys := state.lockedKeys + [key]);
      var (state2, e) := HandleEscalation(CheckEscalation(state.keyLockCount, config.escalation), state);
      assert state2.lockedKeys == state.lockedKeys;
      escalationState, escalate := escalationState[txnId := state2], e;
    }

    method CountLock(txnId: TxnId)
      requires Valid()
      modifies waiterGraph`txnInfo
      ensures Valid() && View() == old(View())
    {
      hide IntervalTree.Valid, NoSelfEdges, KeysMatch, Held, Elems;
      waiterGraph.IncrementLockCount(txnId);
    }

    /** Takes one X lock over all keys the transaction locked so far; a refusal is ignored. */
    method EscalateToRange(txnId: TxnId)
      requires Valid() && txnId in escalationState && escalationState[txnId].lockedKeys != []
      modifies rangeLocks
      ensures Valid()
      ensures var keys := old(escalationState)[txnId].lockedKeys;
              exists r :: RangeOutcome(config, old(View()), txnId, Included(MinKey(keys)), Included(MaxKey(keys)), X,
                                       View(), r)
    {
      var keys := escalationState[txnId].lockedKeys;
      var lo, hi := MinKey(keys), MaxKey(keys);
      hide Valid, View, RangeOutcome, MinKey, MaxKey;
      var _ := LockRangeOf(txnId, Included(lo), Included(hi), X);
    }

    /** The entry of a key, created without holders when there is none. */
    method EntryFor(key: bytes) returns (entry: LockEntry)
      requires KeysMatch()
      modifies this`keyLocks
      ensures KeysMatch() && key in keyLocks && keyLocks[key] == entry
      ensures fresh(keyLocks.Values - old(keyLocks.Values))
      ensures entry.holders == HoldersIn(old(Held()), key)
      ensures Held() == old(Held())[key := entry.holders]
    {
      if key in keyLocks {
        entry := keyLocks[key];
      } else {
        entry := new LockEntry(key);
        keyLocks := keyLocks[key := entry];
      }
    }

    method AddWaits(waiter: TxnId, holders: set<TxnId>)
      modifies waiterGraph`edges
      ensures old(NoSelfEdges(waiterGraph.edges)) ==> NoSelfEdges(waiterGraph.edges)
      ensures forall x, y :: Edge(waiterGraph.edges, x, y) <==>
                Edge(old(waiterGraph.edges), x, y) || (x == waiter && y in holders && x != y)
    {
      hide NoSelfEdges, Edge;
      var remaining := holders;
      while remaining != {}
        invariant remaining <= holders
        invariant old(NoSelfEdges(waiterGraph.edges)) ==> NoSelfEdges(waiterGraph.edges)
        invariant forall x, y :: Edge(waiterGraph.edges, x, y) <==>
                    Edge(old(waiterGraph.edges), x, y) || (x == waiter && y in holders - remaining && x != y)
        decreases remaining
      {
        var h :| h in remaining;
        waiterGraph.AddWaitEdge(waiter, h);
        remaining := remaining - {h};
      }
    }

    method RemoveWaits(waiter: TxnId, holders: set<TxnId>)
      modifies waiterGraph`edges
      ensures old(NoSelfEdges(waiterGraph.edges)) ==> NoSelfEdges(waiterGraph.edges)
      ensures forall x, y :: Edge(waiterGraph.edges, x, y) <==>
                Edge(old(waiterGraph.edges), x, y) && !(x == waiter && y in holders)
    {
      hide NoSelfEdges, Edge;
      var remaining := holders;
      while remaining != {}
        invariant remaining <= holders
        invariant old(NoSelfEdges(waiterGraph.edges)) ==> NoSelfEdges(waiterGraph.edges)
        invariant forall x, y :: Edge(waiterGraph.edges, x, y) <==>
                    Edge(old(waiterGraph.edges), x, y) && !(x == waiter && y in holders - remaining)
        decreases remaining
      {
        var h :| h in remaining;
        waiterGraph.RemoveWaitEdge(waiter, h);
        remaining := remaining - {h};
      }
    }

    /** Asks the entry of a key for the lock. */
    method AskEntry(entry: LockEntry, txnId: TxnId, key: bytes, mode: LockMode) returns (ok: bool)
      requires KeysMatch() && key in keyLocks && keyLocks[key] == entry
      modifies entry`holders
      ensures ok <==> TryAcquire(old(entry.holders), txnId, mode).Some?
      ensures entry.holders == if ok then TryAcquire(old(entry.holders), txnId, mode).value else old(entry.holders)
      ensures Held() == old(Held())[key := entry.holders]
    {
      hide TryAcquire;
      ok := entry.TryAcquireLock(txnId, mode);
    }

    /** Finds or creates the entry of a key and asks it for the lock. */
    method TryEntry(txnId: TxnId, key: bytes, mode: LockMode) returns (entry: LockEntry, ok: bool)
      requires KeysMatch()
      modifies this`keyLocks, keyLocks.Values
      ensures KeysMatch() && key in keyLocks && keyLocks[key] == entry
      ensures fresh(keyLocks.Values - old(keyLocks.Values))
      ensures var h := HoldersIn(old(Held()), key);
              var granted := TryAcquire(h, txnId, mode);
              && (ok <==> granted.Some?)
              && entry.holders == (if ok then granted.value else h)
      ensures Held() == old(Held())[key := entry.holders]
    {
      hide Held, KeysMatch, TryAcquire, HoldersIn;
      entry := EntryFor(key);
      ok := AskEntry(entry, txnId, key, mode);
    }

    method TryKey(txnId: TxnId, key: bytes, mode: LockMode) returns (entry: LockEntry, ok: bool)
      requires Valid()
      modifies this`keyLocks, keyLocks.Values
      ensures Valid() && key in keyLocks && keyLocks[key] == entry
      ensures fresh(keyLocks.Values - old(keyLocks.Values))
      ensures var h := HoldersOf(old(View()), key);
              var granted := TryAcquire(h, txnId, mode);
              && (ok <==> granted.Some?)
              && entry.holders == (if ok then granted.value else h)
      ensures View() == old(View()).(held := old(View()).held[key := entry.holders])
    {
      hide TryAcquire, IntervalTree.Valid, NoSelfEdges, Elems, KeysMatch, Held, HoldersIn;
      entry, ok := TryEntry(txnId, key, mode);
    }

    method LockKeyOf(txnId: TxnId, key: bytes, mode: LockMode) returns (r: LockResult)
      requires Valid()
      modifies this`keyLocks, this`escalationState, keyLocks.Values, rangeLocks, waiterGraph
      ensures Valid() && fresh(keyLocks.Values - old(keyLocks.Values))
      ensures KeyOutcome(config, old(View()), txnId, key, mode, View(), r)
      ensures forall x, y :: Edge(waiterGraph.edges, x, y) ==> Edge(old(waiterGraph.edges), x, y)
    {
      hide Valid, View, RecordOutcome, CompatibleWithRanges, MayPass, Edge, TryAcquire, HoldersOf;
      if config.enableRangeLocks {
        var conflict := RangeConflicts(txnId, key, mode);
        if conflict {
          return Refused(RangeConflict);
        }
      }
      var entry, ok := TryKey(txnId, key, mode);
      if ok {
        RecordLockAcquired(txnId, key);
        return Granted;
      }
      r := WaitFor(txnId, key, mode, entry);
    }

    /** A blocked request: its wait edges exist only while it waits. */
    method WaitFor(txnId: TxnId, key: bytes, mode: LockMode, entry: LockEntry) returns (r: LockResult)
      requires Valid() && key in keyLocks && keyLocks[key] == entry
      requires TryAcquire(entry.holders, txnId, mode).None?
      modifies entry, waiterGraph`edges
      ensures Valid() && View() == old(View()) && r == Refused(Timeout)
      ensures forall x, y :: Edge(waiterGraph.edges, x, y) <==>
                Edge(old(waiterGraph.edges), x, y) && !(x == txnId && y in old(entry.holders))
    {
      hide IntervalTree.Valid, NoSelfEdges, Edge, TryAcquire, KeysMatch, Elems;
      var blockers := entry.holders.Keys;
      AddWaits(txnId, blockers);
      r := entry.Acquire(txnId, mode);
      assert View().held == old(View().held);
      RemoveWaits(txnId, blockers);
      NoSelfWait(old(waiterGraph.edges));
    }

    /** Drops every key lock, range lock, wait edge and registration of the transaction. */
    method ReleaseAllOf(txnId: TxnId)
      requires Valid()
      modifies this`escalationState, keyLocks.Values, rangeLocks, waiterGraph
      ensures Valid() && View() == ReleaseAll(old(View()), txnId)
      ensures waiterGraph.edges == Without(old(waiterGraph.edges), {txnId})
      ensures waiterGraph.txnInfo == old(waiterGraph.txnInfo) - {txnId}
    {
      hide IntervalTree.Valid, NoSelfEdges, KeysMatch, Held, Without, Elems, ReleasedHolders;
      ReleaseKeys(txnId);
      DropRanges(txnId);
      DropWaits(txnId);
      escalationState := escalationState - {txnId};
    }

    method DropRanges(txnId: TxnId)
      requires rangeLocks.Valid()
      modifies rangeLocks
      ensures rangeLocks.Valid()
      ensures Elems(rangeLocks.Contents()) == set r | r in old(Elems(rangeLocks.Contents())) && r.txnId != txnId
    {
      rangeLocks.RemoveByTxn(txnId);
      WithoutTxnMembers(old(rangeLocks.Contents()), rangeLocks.Contents(), txnId);
    }

    method DropWaits(txnId: TxnId)
      requires NoSelfEdges(waiterGraph.edges)
      modifies waiterGraph
      ensures NoSelfEdges(waiterGraph.edges)
      ensures waiterGraph.edges == Without(old(waiterGraph.edges), {txnId})
      ensures waiterGraph.txnInfo == old(waiterGraph.txnInfo) - {txnId}
    {
      waiterGraph.RemoveAllWaits(txnId);
      waiterGraph.UnregisterTxn(txnId);
      WithoutKeepsNoSelfEdges(old(waiterGraph.edges), txnId);
    }

    method ReleaseKeys(txnId: TxnId)
      requires KeysMatch()
      modifies keyLocks.Values
      ensures Held() == ReleasedHolders(old(Held()), txnId)
    {
      var remaining := keyLocks.Keys;
      while remaining != {}
        invariant remaining <= keyLocks.Keys
        invariant forall k | k in keyLocks ::
            keyLocks[k].holders == old(keyLocks[k].holders) - if k in remaining then {} else {txnId}
        decreases remaining
      {
        var k :| k in remaining;
        var _ := keyLocks[k].Release(txnId);
        remaining := remaining - {k};
      }
    }

    method UpgradeLockOf(txnId: TxnId, key: bytes) returns (r: LockResult)
      requires Valid()
      modifies keyLocks.Values
      ensures Valid() && (View(), r) == UpgradeLock(old(View()), txnId, key)
    {
      hide IntervalTree.Valid, NoSelfEdges, Elems;
      if key !in keyLocks {
        return Refused(NotHeld);
      }
      var entry := keyLocks[key];
      ghost var v := View();
      assert HoldersOf(v, key) == entry.holders && v.held[key := v.held[key]] == v.held;
      assert txnId in entry.holders && entry.holders[txnId] == X ==> entry.holders[txnId := X] == entry.holders;
      r := entry.Upgrade(txnId, X);
      assert View() == v.(held := v.held[key := entry.holders]);
      hide Held, KeysMatch;
    }
  }

  lemma WithoutTxnMembers(es: seq<RangeLockEntry>, rest: seq<RangeLockEntry>, txnId: TxnId)
    requires multiset(rest) == multiset(WithoutTxn(es, txnId))
    ensures Elems(rest) == set r | r in Elems(es) && r.txnId != txnId
  {
    forall r ensures r in rest <==> r in es && r.txnId != txnId {
      WithoutTxnCounts(es, txnId, r);
      assert r in rest <==> multiset(rest)[r] > 0;
      assert r in es <==> multiset(es)[r] > 0;
    }
  }

  lemma NoSelfWait(g: Digraph)
    requires NoSelfEdges(g)
    ensures forall x :: !Edge(g, x, x)
  {
  }

  lemma WithoutKeepsNoSelfEdges(g: Digraph, txnId: TxnId)
    requires NoSelfEdges(g)
    ensures NoSelfEdges(Without(g, {txnId})) && Without(g - {txnId}, {txnId}) == Without(g, {txnId})
  {
  }

  lemma InsertAddsMember(es: seq<RangeLockEntry>, e: RangeLockEntry)
    ensures Elems(InsertEntry(es, e)) == Elems(es) + {e}
  {
    InsertAddsOne(es, e);
    forall x ensures x in InsertEntry(es, e) <==> x in es || x == e {
      assert x in InsertEntry(es, e) <==> x in multiset(InsertEntry(es, e));
      assert x in es <==> x in multiset(es);
    }
  }

  function Elems<T>(s: seq<T>): set<T> {
    set x | x in s
  }
}
