/**
 Runs of the commit validator of crabstash-lock/src/ssi.rs beside the keys its transactions really
 touched. For every hash: what it accepts is serializable in commit order, it refuses only for a
 reason in the log, and pruning may change an answer precisely for the read timestamps given here.
 */
module SsiRuns {
  import opened Bytes
  import opened Graph
  import opened LockModes
  import opened SsiState

  // ---------------------------------------------------------------- runs

  datatype SsiOp =
    | OpBegin(txnId: TxnId, startTs: nat)
    | OpBeginReadOnly(txnId: TxnId, startTs: nat)
    | OpRead(txnId: TxnId, key: bytes)
    | OpWrite(txnId: TxnId, key: bytes)
    | OpRangeRead(txnId: TxnId, start: Bound, end: Bound)
    | OpValidate(txnId: TxnId, readTs: nat, commitTs: nat, keys: seq<bytes>)
    | OpAbort(txnId: TxnId)
    | OpCommitReadOnly(txnId: TxnId)
    | OpAdvance(watermark: nat)

  /**
   When an open transaction began and what it really read and wrote; `least` is its start, or an earlier
   read timestamp it was refused at.
   */
  datatype Access = Access(start: nat, readKeys: set<bytes>, writeKeys: set<bytes>, ranges: seq<KeyRange>, least: nat)

  const NewAccess := Access(0, {}, {}, [], 0)

  /** An accepted transaction: its real accesses, the keys its caller listed, and since when its reads were checked. */
  datatype Commit = Commit(
    startTs: nat,
    since: nat,
    commitTs: nat,
    readKeys: set<bytes>,
    writeKeys: set<bytes>,
    readRanges: seq<KeyRange>,
    listed: seq<bytes>)

  /** The validator beside everything that really happened; `clock` is the last timestamp issued. */
  datatype History = History(ssi: Ssi, access: map<TxnId, Access>, log: seq<Commit>, clock: nat)

  const NewSsi := Ssi(map[], map[], map[], {}, 0)
  const NewHistory := History(NewSsi, map[], [], 0)

  /**
   What the callers owe: fresh ids, strictly increasing start and commit timestamps, and a watermark no
   higher than the smallest start of an open transaction (`safe_snapshot`). Any read timestamp will do.
   */
  predicate Allowed(h: History, op: SsiOp) {
    match op
    case OpBegin(t, ts) => t !in h.ssi.startTs && t !in h.ssi.active && ts > h.clock
    case OpBeginReadOnly(t, ts) => t !in h.ssi.startTs && t !in h.ssi.active
    case OpValidate(_, _, commitTs, _) => commitTs > h.clock
    case OpAdvance(w) => BelowAllStarts(h.ssi, w)
    case OpCommitReadOnly(t) => t !in h.ssi.active
    case _ => true
  }

  /** The first timestamp after `readTs` at which anything can commit; starts are from 1 and commits from 2. */
  function NextCommit(readTs: nat): nat {
    if readTs == 0 then 2 else readTs + 1
  }

  /** The own start or the watermark, whichever is lower: what committed from there on was never pruned. */
  function KeptFrom(s: Ssi, t: TxnId): nat {
    if t in s.startTs && s.startTs[t] < s.watermark then s.startTs[t] else s.watermark
  }

  /** Whatever committed after `readTs` is still there. */
  predicate Retained(s: Ssi, t: TxnId, readTs: nat) {
    KeptFrom(s, t) <= NextCommit(readTs)
  }

  /** The timestamp reads are checked from: the read timestamp, or a later one where what follows it may be pruned. */
  function Since(s: Ssi, t: TxnId, readTs: nat): nat {
    if Retained(s, t, readTs) then readTs else KeptFrom(s, t) - 1
  }

  /** Whether the operation succeeds; only validation can fail. */
  ghost predicate Answer(h: History, op: SsiOp) {
    op.OpValidate? ==> Accepts(h.ssi, op.txnId, op.readTs, op.commitTs)
  }

  ghost function Step(hash: Hasher, h: History, op: SsiOp): History {
    match op
    case OpBegin(t, ts) => History(Begin(h.ssi, t, ts), h.access[t := NewAccess.(start := ts, least := ts)], h.log, ts)
    case OpBeginReadOnly(t, ts) => h.(ssi := BeginReadOnly(h.ssi, t, ts))
    case OpRead(t, k) => h.(ssi := RecordRead(hash, h.ssi, t, k), access := NoteRead(h.access, t, k))
    case OpWrite(t, k) => h.(ssi := RecordWrite(hash, h.ssi, t, k), access := NoteWrite(h.access, t, k))
    case OpRangeRead(t, a, b) => h.(ssi := RecordRangeRead(h.ssi, t, a, b), access := NoteRange(h.access, t, (a, b)))
    case OpValidate(t, readTs, commitTs, keys) =>
      var (s, ok) := Validate(h.ssi, t, readTs, commitTs, keys);
      if ok && t in h.access then
        History(s, h.access - {t}, h.log + [CommitOf(h, t, readTs, commitTs, keys)], commitTs)
      else h.(ssi := s, access := NoteRefused(h.access, t, readTs), clock := commitTs)
    case OpAbort(t) => h.(ssi := Abort(h.ssi, t), access := h.access - {t})
    case OpCommitReadOnly(t) => h.(ssi := CommitReadOnly(h.ssi, t))
    case OpAdvance(w) => h.(ssi := AdvanceWatermark(h.ssi, w))
  }

  function NoteRead(access: map<TxnId, Access>, t: TxnId, key: bytes): map<TxnId, Access> {
    if t !in access then access else access[t := access[t].(readKeys := access[t].readKeys + {key})]
  }

  function NoteWrite(access: map<TxnId, Access>, t: TxnId, key: bytes): map<TxnId, Access> {
    if t !in access then access else access[t := access[t].(writeKeys := access[t].writeKeys + {key})]
  }

  function NoteRange(access: map<TxnId, Access>, t: TxnId, range: KeyRange): map<TxnId, Access> {
    if t !in access then access else access[t := access[t].(ranges := access[t].ranges + [range])]
  }

  function NoteRefused(access: map<TxnId, Access>, t: TxnId, readTs: nat): map<TxnId, Access> {
    if t !in access || access[t].least <= readTs then access else access[t := access[t].(least := readTs)]
  }

  function CommitOf(h: History, t: TxnId, readTs: nat, commitTs: nat, keys: seq<bytes>): Commit
    requires t in h.access
  {
    var a := h.access[t];
    Commit(a.start, Since(h.ssi, t, readTs), commitTs, a.readKeys, a.writeKeys, a.ranges, keys)
  }

  ghost function Run(hash: Hasher, ops: seq<SsiOp>): History {
    if ops == [] then NewHistory else Step(hash, Run(hash, ops[..|ops| - 1]), ops[|ops| - 1])
  }

  ghost predicate RunAllowed(hash: Hasher, ops: seq<SsiOp>) {
    ops == [] || (RunAllowed(hash, ops[..|ops| - 1]) && Allowed(Run(hash, ops[..|ops| - 1]), ops[|ops| - 1]))
  }

  // ---------------------------------------------------------------- what the log says

  function Hashes(hash: Hasher, keys: set<bytes>): set<u64> {
    set k | k in keys :: hash(k)
  }

  /** The key is neither below the start nor above the end of the range; an excluded bound is not in it. */
  predicate Within(key: bytes, range: KeyRange) {
    && (range.0.Included? ==> Le(range.0.key, key))
    && (range.0.Excluded? ==> Lt(range.0.key, key))
    && (range.1.Included? ==> Le(key, range.1.key))
    && (range.1.Excluded? ==> Lt(key, range.1.key))
  }

  /** The commit listed a key within one of the ranges. */
  predicate ListedIn(c: Commit, ranges: seq<KeyRange>) {
    exists i, j :: 0 <= i < |c.listed| && 0 <= j < |ranges| && Within(c.listed[i], ranges[j])
  }

  lemma ListedIsInRanges(c: Commit, ranges: seq<KeyRange>)
    ensures ListedIn(c, ranges) <==> exists i :: 0 <= i < |c.listed| && KeyInRanges(c.listed[i], ranges)
  {
    hide Le, Lt;
    if i, j :| 0 <= i < |c.listed| && 0 <= j < |ranges| && Within(c.listed[i], ranges[j]) {
      assert KeyInRanges(c.listed[i], ranges);
    }
    if i :| 0 <= i < |c.listed| && KeyInRanges(c.listed[i], ranges) {
      var j :| 0 <= j < |ranges| && InRange(c.listed[i], ranges[j].0, ranges[j].1);
      assert Within(c.listed[i], ranges[j]);
    }
  }

  /** Some transaction that committed after `readTs` wrote a key whose hash was read. */
  predicate LogReadConflict(hash: Hasher, log: seq<Commit>, keys: set<bytes>, readTs: nat) {
    exists i :: 0 <= i < |log| && log[i].commitTs > readTs && Hashes(hash, log[i].writeKeys) * Hashes(hash, keys) != {}
  }

  predicate LogPhantom(log: seq<Commit>, ranges: seq<KeyRange>, readTs: nat) {
    exists i :: 0 <= i < |log| && log[i].commitTs > readTs && ListedIn(log[i], ranges)
  }

  /**
   The commits are serializable in commit order: what committed after the timestamp a transaction was
   checked from and before the transaction itself wrote none of the keys, and listed none inside the
   ranges, that it read.
   */
  predicate SerializableLog(log: seq<Commit>) {
    forall i, j :: 0 <= i < j < |log| ==>
      && log[i].commitTs < log[j].commitTs
      && (log[j].since < log[i].commitTs ==>
            log[i].writeKeys * log[j].readKeys == {} && !ListedIn(log[i], log[j].readRanges))
  }

  // ---------------------------------------------------------------- the invariant

  predicate LogOk(log: seq<Commit>, clock: nat) {
    && (forall i :: 0 <= i < |log| ==> 0 < log[i].startTs < log[i].commitTs <= clock)
    && (forall i, j :: 0 <= i < j < |log| ==> log[i].commitTs < log[j].commitTs)
  }

  predicate Matches(hash: Hasher, e: CommittedTxn, c: Commit) {
    && e.startTs == c.startTs
    && e.readSet == Hashes(hash, c.readKeys)
    && e.writeSet == Hashes(hash, c.writeKeys)
    && e.writeKeys == c.listed
  }

  /** The retained commits are commits of the log. */
  predicate CommittedOk(hash: Hasher, committed: map<nat, CommittedTxn>, log: seq<Commit>) {
    && (forall i :: 0 <= i < |log| && log[i].commitTs in committed ==>
          Matches(hash, committed[log[i].commitTs], log[i]))
    && (forall ts :: ts in committed ==> exists i :: 0 <= i < |log| && log[i].commitTs == ts)
  }

  /** What was pruned committed before every open transaction started, and below the watermark. */
  predicate PrunedOk(s: Ssi, log: seq<Commit>) {
    && (forall i :: 0 <= i < |log| ==> log[i].commitTs in s.committed || log[i].commitTs < s.watermark)
    && (forall i, t :: 0 <= i < |log| && t in s.active && t in s.startTs ==>
          log[i].commitTs in s.committed || log[i].commitTs < s.startTs[t])
  }

  /** The validator knows an open transaction by what it really did. */
  predicate Mirrors(hash: Hasher, a: Active, c: Access) {
    && a.readKeys == Hashes(hash, c.readKeys)
    && a.writeKeys == Hashes(hash, c.writeKeys)
    && a.readRanges == c.ranges
  }

  predicate ActiveOk(hash: Hasher, s: Ssi, access: map<TxnId, Access>, clock: nat) {
    && s.active.Keys == access.Keys
    && forall t :: t in s.active ==>
      && t in s.startTs && 0 < s.startTs[t] <= clock && s.startTs[t] == access[t].start
      && Mirrors(hash, s.active[t], access[t])
  }

  /** The sticky mark of a failed validation always has a real cause. */
  predicate DoomedOk(hash: Hasher, h: History) {
    forall t :: t in h.ssi.active && t in h.access && h.ssi.active[t].doomed ==>
      LogReadConflict(hash, h.log, h.access[t].readKeys, h.access[t].least)
  }

  predicate Inv(hash: Hasher, h: History) {
    && LogOk(h.log, h.clock)
    && CommittedOk(hash, h.ssi.committed, h.log)
    && PrunedOk(h.ssi, h.log)
    && ActiveOk(hash, h.ssi, h.access, h.clock)
    && DoomedOk(hash, h)
    && SerializableLog(h.log)
  }

  /** What committed after the timestamp checked from is retained. */
  lemma SinceIsRetained(hash: Hasher, h: History, t: TxnId, readTs: nat, i: nat)
    requires Inv(hash, h) && t in h.ssi.active && i < |h.log| && Since(h.ssi, t, readTs) < h.log[i].commitTs
    ensures readTs < h.log[i].commitTs && h.log[i].commitTs in h.ssi.committed
    ensures Matches(hash, h.ssi.committed[h.log[i].commitTs], h.log[i])
  {
    hide SerializableLog, DoomedOk, Matches;
  }

  /** The retained commits answer as the log would: hashing only, never pruning, loses precision. */
  lemma ReadConflictIsLogged(hash: Hasher, h: History, t: TxnId, readTs: nat, commitTs: nat)
    requires Inv(hash, h) && t in h.ssi.active && commitTs > h.clock
    ensures var found := ReadConflict(h.ssi, h.ssi.active[t].readKeys, readTs, commitTs);
            && (found ==> LogReadConflict(hash, h.log, h.access[t].readKeys, readTs))
            && (LogReadConflict(hash, h.log, h.access[t].readKeys, Since(h.ssi, t, readTs)) ==> found)
  {
    hide SerializableLog, DoomedOk, PrunedOk, Hashes, KeyInRanges, Since;
    var keys := h.ssi.active[t].readKeys;
    if ReadConflict(h.ssi, keys, readTs, commitTs) {
      var ts :| ts in h.ssi.committed && WriterConflicts(h.ssi.committed[ts], ts, keys, readTs, commitTs);
      var i :| 0 <= i < |h.log| && h.log[i].commitTs == ts;
    }
    if LogReadConflict(hash, h.log, h.access[t].readKeys, Since(h.ssi, t, readTs)) {
      var i :| 0 <= i < |h.log| && h.log[i].commitTs > Since(h.ssi, t, readTs)
               && Hashes(hash, h.log[i].writeKeys) * Hashes(hash, h.access[t].readKeys) != {};
      SinceIsRetained(hash, h, t, readTs, i);
      assert WriterConflicts(h.ssi.committed[h.log[i].commitTs], h.log[i].commitTs, keys, readTs, commitTs);
    }
  }

  lemma PhantomIsLogged(hash: Hasher, h: History, t: TxnId, readTs: nat, commitTs: nat)
    requires Inv(hash, h) && t in h.ssi.active && commitTs > h.clock
    ensures var found := Phantom(h.ssi, h.ssi.active[t].readRanges, readTs, commitTs);
            && (found ==> LogPhantom(h.log, h.access[t].ranges, readTs))
            && (LogPhantom(h.log, h.access[t].ranges, Since(h.ssi, t, readTs)) ==> found)
  {
    hide SerializableLog, DoomedOk, PrunedOk, Hashes, KeyInRanges, ListedIn, Since;
    var ranges := h.ssi.active[t].readRanges;
    if Phantom(h.ssi, ranges, readTs, commitTs) {
      var ts :| ts in h.ssi.committed && PhantomIn(h.ssi.committed[ts], ts, ranges, readTs, commitTs);
      var i :| 0 <= i < |h.log| && h.log[i].commitTs == ts;
      ListedIsInRanges(h.log[i], ranges);
    }
    if LogPhantom(h.log, ranges, Since(h.ssi, t, readTs)) {
      var i :| 0 <= i < |h.log| && h.log[i].commitTs > Since(h.ssi, t, readTs) && ListedIn(h.log[i], ranges);
      SinceIsRetained(hash, h, t, readTs, i);
      ListedIsInRanges(h.log[i], ranges);
      assert PhantomIn(h.ssi.committed[h.log[i].commitTs], h.log[i].commitTs, ranges, readTs, commitTs);
    }
  }

  // ---------------------------------------------------------------- every step keeps the invariant

  lemma HashesGrow(hash: Hasher, keys: set<bytes>, key: bytes)
    ensures Hashes(hash, keys + {key}) == Hashes(hash, keys) + {hash(key)}
  {
  }

  lemma BeginKeepsInv(hash: Hasher, h: History, op: SsiOp)
    requires Inv(hash, h) && Allowed(h, op) && op.OpBegin?
    ensures Inv(hash, Step(hash, h, op))
  {
    hide SerializableLog, CommittedOk, PrunedOk, ActiveOk, LogReadConflict;
    BeginKeepsActive(hash, h, op);
    BeginKeepsPruned(hash, h, op);
  }

  lemma BeginKeepsActive(hash: Hasher, h: History, op: SsiOp)
    requires Inv(hash, h) && Allowed(h, op) && op.OpBegin?
    ensures ActiveOk(hash, Step(hash, h, op).ssi, Step(hash, h, op).access, op.startTs)
  {
    hide SerializableLog, CommittedOk, DoomedOk, PrunedOk, LogOk, Hashes;
    NoKeysNoHashes(hash);
  }

  lemma BeginKeepsPruned(hash: Hasher, h: History, op: SsiOp)
    requires Inv(hash, h) && Allowed(h, op) && op.OpBegin?
    ensures PrunedOk(Step(hash, h, op).ssi, h.log)
  {
    hide SerializableLog, CommittedOk, DoomedOk, ActiveOk;
  }

  lemma NoKeysNoHashes(hash: Hasher)
    ensures Hashes(hash, {}) == {}
  {
  }

  lemma BeginReadOnlyKeepsInv(hash: Hasher, h: History, op: SsiOp)
    requires Inv(hash, h) && Allowed(h, op) && op.OpBeginReadOnly?
    ensures Inv(hash, Step(hash, h, op))
  {
    hide SerializableLog, Matches, LogReadConflict, CommittedOk, Hashes, LogOk;
  }

  /** `h` with another state of one open transaction. */
  function Touched(h: History, t: TxnId, a: Active, c: Access, clock: nat): History {
    h.(ssi := h.ssi.(active := h.ssi.active[t := a]), access := h.access[t := c], clock := clock)
  }

  lemma TouchKeepsActive(hash: Hasher, h: History, t: TxnId, a: Active, c: Access, clock: nat)
    requires ActiveOk(hash, h.ssi, h.access, h.clock) && t in h.ssi.active && h.clock <= clock
    requires t in h.access && Mirrors(hash, a, c) && c.start == h.access[t].start
    ensures ActiveOk(hash, Touched(h, t, a, c, clock).ssi, Touched(h, t, a, c, clock).access, clock)
  {
    hide Hashes;
  }

  lemma TouchKeepsDoomed(hash: Hasher, h: History, t: TxnId, a: Active, c: Access, clock: nat)
    requires DoomedOk(hash, h) && (a.doomed ==> LogReadConflict(hash, h.log, c.readKeys, c.least))
    ensures DoomedOk(hash, Touched(h, t, a, c, clock))
  {
    hide LogReadConflict;
  }

  lemma TouchKeepsLog(hash: Hasher, h: History, t: TxnId, a: Active, c: Access, clock: nat)
    requires Inv(hash, h) && t in h.ssi.active && h.clock <= clock
    ensures var h' := Touched(h, t, a, c, clock);
            && LogOk(h'.log, clock) && CommittedOk(hash, h'.ssi.committed, h'.log)
            && PrunedOk(h'.ssi, h'.log) && SerializableLog(h'.log)
  {
    hide SerializableLog, ActiveOk, DoomedOk, CommittedOk;
  }

  lemma TouchKeepsInv(hash: Hasher, h: History, t: TxnId, a: Active, c: Access, clock: nat)
    requires Inv(hash, h) && t in h.ssi.active && h.clock <= clock
    requires t in h.access && Mirrors(hash, a, c) && c.start == h.access[t].start
    requires a.doomed ==> LogReadConflict(hash, h.log, c.readKeys, c.least)
    ensures Inv(hash, Touched(h, t, a, c, clock))
  {
    hide SerializableLog, ActiveOk, DoomedOk, CommittedOk, PrunedOk, LogOk, LogReadConflict, Hashes;
    TouchKeepsActive(hash, h, t, a, c, clock);
    TouchKeepsDoomed(hash, h, t, a, c, clock);
    TouchKeepsLog(hash, h, t, a, c, clock);
  }

  /** What the invariant says about one open transaction. */
  lemma OpenTxn(hash: Hasher, h: History, t: TxnId)
    requires Inv(hash, h) && t in h.ssi.active
    ensures t in h.access
    ensures var a, c := h.ssi.active[t], h.access[t];
            && Mirrors(hash, a, c) && t in h.ssi.startTs && h.ssi.startTs[t] == c.start
            && (a.doomed ==> LogReadConflict(hash, h.log, c.readKeys, c.least))
  {
    hide SerializableLog, CommittedOk, PrunedOk, LogOk, LogReadConflict, Hashes;
  }

  lemma NotOpen(hash: Hasher, h: History, t: TxnId)
    requires Inv(hash, h) && t !in h.ssi.active
    ensures t !in h.access
  {
    hide SerializableLog, CommittedOk, PrunedOk, LogOk, LogReadConflict, Hashes, DoomedOk;
  }

  lemma ReadKeepsInv(hash: Hasher, h: History, op: SsiOp)
    requires Inv(hash, h) && op.OpRead?
    ensures Inv(hash, Step(hash, h, op))
  {
    hide Inv, Hashes, LogReadConflict;
    var t := op.txnId;
    if t in h.ssi.active {
      OpenTxn(hash, h, t);
      var a, c := h.ssi.active[t], h.access[t];
      HashesGrow(hash, c.readKeys, op.key);
      if a.doomed {
        MoreReadsConflict(hash, h.log, c.readKeys, op.key, c.least);
      }
      TouchKeepsInv(hash, h, t, a.(readKeys := a.readKeys + {hash(op.key)}), c.(readKeys := c.readKeys + {op.key}),
          h.clock);
    } else {
      NotOpen(hash, h, t);
    }
  }

  lemma MoreReadsConflict(hash: Hasher, log: seq<Commit>, keys: set<bytes>, key: bytes, readTs: nat)
    requires LogReadConflict(hash, log, keys, readTs)
    ensures LogReadConflict(hash, log, keys + {key}, readTs)
  {
    HashesGrow(hash, keys, key);
    hide Hashes;
    var i :| 0 <= i < |log| && log[i].commitTs > readTs && Hashes(hash, log[i].writeKeys) * Hashes(hash, keys) != {};
    assert Hashes(hash, log[i].writeKeys) * Hashes(hash, keys + {key}) != {};
  }

  lemma WriteKeepsInv(hash: Hasher, h: History, op: SsiOp)
    requires Inv(hash, h) && op.OpWrite?
    ensures Inv(hash, Step(hash, h, op))
  {
    hide Inv, Hashes, LogReadConflict;
    var t := op.txnId;
    if t in h.ssi.active {
      OpenTxn(hash, h, t);
      var a, c := h.ssi.active[t], h.access[t];
      HashesGrow(hash, c.writeKeys, op.key);
      TouchKeepsInv(hash, h, t, a.(writeKeys := a.writeKeys + {hash(op.key)}), c.(writeKeys := c.writeKeys + {op.key}),
          h.clock);
    } else {
      NotOpen(hash, h, t);
    }
  }

  lemma RangeReadKeepsInv(hash: Hasher, h: History, op: SsiOp)
    requires Inv(hash, h) && op.OpRangeRead?
    ensures Inv(hash, Step(hash, h, op))
  {
    hide Inv, Hashes, LogReadConflict;
    var t := op.txnId;
    if t in h.ssi.active {
      OpenTxn(hash, h, t);
      var a, c := h.ssi.active[t], h.access[t];
      var range := (op.start, op.end);
      TouchKeepsInv(hash, h, t, a.(readRanges := a.readRanges + [range]), c.(ranges := c.ranges + [range]), h.clock);
    } else {
      NotOpen(hash, h, t);
    }
  }

  lemma EndKeepsInv(hash: Hasher, h: History, op: SsiOp)
    requires Inv(hash, h) && Allowed(h, op) && (op.OpAbort? || op.OpCommitReadOnly?)
    ensures Inv(hash, Step(hash, h, op))
  {
    hide SerializableLog, ListedIn, KeyInRanges, Matches, Hashes, LogOk, LogReadConflict;
  }

  lemma AdvanceKeepsInv(hash: Hasher, h: History, op: SsiOp)
    requires Inv(hash, h) && Allowed(h, op) && op.OpAdvance?
    ensures Inv(hash, Step(hash, h, op))
  {
    hide SerializableLog, ListedIn, KeyInRanges, Matches, Hashes, LogOk, LogReadConflict;
  }

  lemma EarlierConflicts(hash: Hasher, log: seq<Commit>, keys: set<bytes>, readTs: nat, earlier: nat)
    requires LogReadConflict(hash, log, keys, readTs) && earlier <= readTs
    ensures LogReadConflict(hash, log, keys, earlier)
  {
    hide Hashes;
  }

  /** A validation that fails leaves a mark that has a cause at the earliest read timestamp so far. */
  lemma MarkHasCause(hash: Hasher, h: History, t: TxnId, readTs: nat, commitTs: nat)
    requires Inv(hash, h) && t in h.ssi.active && commitTs > h.clock && Doomed(h.ssi, t, readTs, commitTs)
    ensures t in h.access
    ensures var c := h.access[t];
            LogReadConflict(hash, h.log, c.readKeys, if c.least <= readTs then c.least else readTs)
  {
    hide Inv, LogReadConflict, ReadConflict;
    OpenTxn(hash, h, t);
    ReadConflictIsLogged(hash, h, t, readTs, commitTs);
    var c := h.access[t];
    if h.ssi.active[t].doomed {
      EarlierConflicts(hash, h.log, c.readKeys, c.least, if c.least <= readTs then c.least else readTs);
    } else {
      EarlierConflicts(hash, h.log, c.readKeys, readTs, if c.least <= readTs then c.least else readTs);
    }
  }

  lemma LaterKeepsInv(hash: Hasher, h: History, clock: nat)
    requires Inv(hash, h) && h.clock <= clock
    ensures Inv(hash, h.(clock := clock))
  {
    hide SerializableLog, CommittedOk, PrunedOk, Hashes, LogReadConflict;
  }

  lemma RefusalKeepsInv(hash: Hasher, h: History, op: SsiOp)
    requires Inv(hash, h) && Allowed(h, op) && op.OpValidate? && !Answer(h, op)
    ensures Inv(hash, Step(hash, h, op))
  {
    hide Inv, Hashes, LogReadConflict, Doomed, Phantom;
    var t := op.txnId;
    if t in h.ssi.active {
      OpenTxn(hash, h, t);
      var a, c := h.ssi.active[t], h.access[t];
      var c' := if c.least <= op.readTs then c else c.(least := op.readTs);
      var doomed := Doomed(h.ssi, t, op.readTs, op.commitTs);
      if doomed {
        MarkHasCause(hash, h, t, op.readTs, op.commitTs);
      }
      TouchKeepsInv(hash, h, t, a.(doomed := doomed), c', op.commitTs);
      assert h.access[t := c'] == NoteRefused(h.access, t, op.readTs);
    } else {
      NotOpen(hash, h, t);
      LaterKeepsInv(hash, h, op.commitTs);
    }
  }

  /** An accepted transaction read nothing that was overwritten since the timestamp it was checked from. */
  lemma AcceptedIsFresh(hash: Hasher, h: History, t: TxnId, readTs: nat, commitTs: nat, i: nat)
    requires Inv(hash, h) && t in h.ssi.active && commitTs > h.clock
    requires Accepts(h.ssi, t, readTs, commitTs)
    requires i < |h.log| && Since(h.ssi, t, readTs) < h.log[i].commitTs
    ensures h.log[i].writeKeys * h.access[t].readKeys == {}
    ensures !ListedIn(h.log[i], h.access[t].ranges)
  {
    hide SerializableLog, ListedIn, KeyInRanges, Matches, Phantom, ReadConflict, DoomedOk, CommittedOk, PrunedOk;
    hide LogOk, Hashes, Since;
    ReadConflictIsLogged(hash, h, t, readTs, commitTs);
    PhantomIsLogged(hash, h, t, readTs, commitTs);
    assert Hashes(hash, h.log[i].writeKeys) * Hashes(hash, h.access[t].readKeys) == {};
    SharedKeyIsSharedHash(hash, h.log[i].writeKeys, h.access[t].readKeys);
    assert h.log[i].writeKeys * h.access[t].readKeys == {};
  }

  lemma SharedKeyIsSharedHash(hash: Hasher, a: set<bytes>, b: set<bytes>)
    ensures a * b != {} ==> Hashes(hash, a) * Hashes(hash, b) != {}
  {
    if k :| k in a * b {
      assert hash(k) in Hashes(hash, a) * Hashes(hash, b);
    }
  }

  lemma CommitKeepsActive(hash: Hasher, h: History, op: SsiOp)
    requires Inv(hash, h) && Allowed(h, op) && op.OpValidate? && Answer(h, op)
    ensures ActiveOk(hash, Step(hash, h, op).ssi, Step(hash, h, op).access, op.commitTs)
    ensures PrunedOk(Step(hash, h, op).ssi, Step(hash, h, op).log)
  {
    hide SerializableLog, ListedIn, KeyInRanges, Matches, Hashes, LogReadConflict, Doomed, Phantom, CommittedOk;
  }

  /** What an accepted validation adds. */
  lemma CommitStep(hash: Hasher, h: History, op: SsiOp)
    requires Inv(hash, h) && op.OpValidate? && Answer(h, op)
    ensures op.txnId in h.access && 0 < h.access[op.txnId].start <= h.clock
    ensures var t, h' := op.txnId, Step(hash, h, op);
            var c := CommitOf(h, t, op.readTs, op.commitTs, op.keys);
            var e := CommittedTxn(c.startTs, h.ssi.active[t].readKeys, h.ssi.active[t].writeKeys, op.keys);
            && h'.log == h.log + [c] && Matches(hash, e, c)
            && h'.ssi.committed == h.ssi.committed[op.commitTs := e]
  {
    hide SerializableLog, CommittedOk, PrunedOk, LogOk, DoomedOk, Hashes, Phantom, Doomed, Since;
  }

  lemma CommitKeepsLog(log: seq<Commit>, clock: nat, c: Commit)
    requires LogOk(log, clock) && 0 < c.startTs <= clock < c.commitTs
    ensures LogOk(log + [c], c.commitTs)
  {
  }

  lemma CommitExtends(hash: Hasher, committed: map<nat, CommittedTxn>, log: seq<Commit>, clock: nat, e: CommittedTxn,
                      c: Commit)
    requires LogOk(log, clock) && clock < c.commitTs && CommittedOk(hash, committed, log) && Matches(hash, e, c)
    ensures CommittedOk(hash, committed[c.commitTs := e], log + [c])
  {
    hide Matches;
    var log', committed' := log + [c], committed[c.commitTs := e];
    assert log'[|log|].commitTs == c.commitTs;
    forall ts | ts in committed' ensures exists i :: 0 <= i < |log'| && log'[i].commitTs == ts {
      if ts != c.commitTs {
        var i :| 0 <= i < |log| && log[i].commitTs == ts;
        assert log'[i].commitTs == ts;
      }
    }
  }

  lemma CommitKeepsCommitted(hash: Hasher, h: History, op: SsiOp)
    requires Inv(hash, h) && Allowed(h, op) && op.OpValidate? && Answer(h, op)
    ensures LogOk(Step(hash, h, op).log, op.commitTs)
    ensures CommittedOk(hash, Step(hash, h, op).ssi.committed, Step(hash, h, op).log)
  {
    hide Step, LogOk, CommittedOk, PrunedOk, DoomedOk, ActiveOk, SerializableLog, Matches, Answer;
    CommitStep(hash, h, op);
    var c := Step(hash, h, op).log[|h.log|];
    assert 0 < c.startTs <= h.clock && c.commitTs == op.commitTs;
    CommitKeepsLog(h.log, h.clock, c);
    CommitExtends(hash, h.ssi.committed, h.log, h.clock, Step(hash, h, op).ssi.committed[op.commitTs], c);
  }

  lemma CommitKeepsDoomed(hash: Hasher, h: History, op: SsiOp)
    requires Inv(hash, h) && Allowed(h, op) && op.OpValidate? && Answer(h, op)
    ensures DoomedOk(hash, Step(hash, h, op))
  {
    hide SerializableLog, ListedIn, KeyInRanges, Hashes, LogReadConflict, Doomed, Phantom, PrunedOk, CommittedOk, LogOk;
    var h' := Step(hash, h, op);
    forall t | t in h'.ssi.active && h'.ssi.active[t].doomed
      ensures LogReadConflict(hash, h'.log, h'.access[t].readKeys, h'.access[t].least)
    {
      LongerLogConflicts(hash, h.log, h'.log[|h.log|], h.access[t].readKeys, h.access[t].least);
    }
  }

  lemma LongerLogConflicts(hash: Hasher, log: seq<Commit>, c: Commit, keys: set<bytes>, readTs: nat)
    requires LogReadConflict(hash, log, keys, readTs)
    ensures LogReadConflict(hash, log + [c], keys, readTs)
  {
    hide Hashes;
    var i :| 0 <= i < |log| && log[i].commitTs > readTs && Hashes(hash, log[i].writeKeys) * Hashes(hash, keys) != {};
    assert (log + [c])[i] == log[i];
  }

  lemma CommitKeepsSerializable(hash: Hasher, h: History, op: SsiOp)
    requires Inv(hash, h) && Allowed(h, op) && op.OpValidate? && Answer(h, op)
    ensures SerializableLog(Step(hash, h, op).log)
  {
    hide ListedIn, KeyInRanges, Hashes, LogReadConflict, Phantom, ReadConflict, PrunedOk, CommittedOk, DoomedOk;
    var c := Step(hash, h, op).log[|h.log|];
    forall i | 0 <= i < |h.log| && c.since < h.log[i].commitTs
      ensures h.log[i].writeKeys * c.readKeys == {} && !ListedIn(h.log[i], c.readRanges)
    {
      AcceptedIsFresh(hash, h, op.txnId, op.readTs, op.commitTs, i);
    }
  }

  lemma StepKeepsInv(hash: Hasher, h: History, op: SsiOp)
    requires Inv(hash, h) && Allowed(h, op)
    ensures Inv(hash, Step(hash, h, op))
  {
    match op
    case OpBegin(_, _) => BeginKeepsInv(hash, h, op);
    case OpBeginReadOnly(_, _) => BeginReadOnlyKeepsInv(hash, h, op);
    case OpRead(_, _) => ReadKeepsInv(hash, h, op);
    case OpWrite(_, _) => WriteKeepsInv(hash, h, op);
    case OpRangeRead(_, _, _) => RangeReadKeepsInv(hash, h, op);
    case OpAbort(_) => EndKeepsInv(hash, h, op);
    case OpCommitReadOnly(_) => EndKeepsInv(hash, h, op);
    case OpAdvance(_) => AdvanceKeepsInv(hash, h, op);
    case OpValidate(_, _, _, _) =>
      if Answer(h, op) {
        CommitKeepsInv(hash, h, op);
      } else {
        RefusalKeepsInv(hash, h, op);
      }
  }

  lemma CommitKeepsInv(hash: Hasher, h: History, op: SsiOp)
    requires Inv(hash, h) && Allowed(h, op) && op.OpValidate? && Answer(h, op)
    ensures Inv(hash, Step(hash, h, op))
  {
    hide ActiveOk, PrunedOk, LogOk, CommittedOk, DoomedOk, SerializableLog, Phantom, Doomed;
    CommitKeepsActive(hash, h, op);
    CommitKeepsCommitted(hash, h, op);
    CommitKeepsDoomed(hash, h, op);
    CommitKeepsSerializable(hash, h, op);
  }

  lemma {:induction false} RunKeepsInv(hash: Hasher, ops: seq<SsiOp>)
    requires RunAllowed(hash, ops)
    ensures Inv(hash, Run(hash, ops))
  {
    if ops != [] {
      RunKeepsInv(hash, ops[..|ops| - 1]);
      StepKeepsInv(hash, Run(hash, ops[..|ops| - 1]), ops[|ops| - 1]);
    }
  }

  // ---------------------------------------------------------------- main results

  /** Point and range reads of everything accepted, over every run and for every hash. */
  lemma RunIsSerializable(hash: Hasher, ops: seq<SsiOp>)
    requires RunAllowed(hash, ops)
    ensures SerializableLog(Run(hash, ops).log)
  {
    RunKeepsInv(hash, ops);
  }

  /** Nothing that committed after `readTs` wrote a hash that was read, or listed a key in a range that was read. */
  predicate Clear(hash: Hasher, h: History, t: TxnId, readTs: nat)
    requires t in h.ssi.active && t in h.access
  {
    && !LogReadConflict(hash, h.log, h.access[t].readKeys, readTs)
    && !LogPhantom(h.log, h.access[t].ranges, readTs)
  }

  /** Validation at `readTs` answers what the log says, whatever the commit timestamp. */
  ghost predicate ExactAt(hash: Hasher, h: History, t: TxnId, readTs: nat)
    requires t in h.ssi.active && t in h.access
  {
    forall commitTs | commitTs > h.clock ::
      Accepts(h.ssi, t, readTs, commitTs) <==> Clear(hash, h, t, readTs) && !h.ssi.active[t].doomed
  }

  /**
   Where nothing after the read timestamp was pruned, a transaction is accepted exactly when it is not
   marked and nothing that committed since wrote a key hashing like one it read, or listed a key inside a
   range it read. The mark adds nothing to this at its own start, or at any timestamp no later than the
   earliest one it was refused at.
   */
  lemma ValidationIsExact(hash: Hasher, ops: seq<SsiOp>, t: TxnId, readTs: nat)
    requires RunAllowed(hash, ops)
    requires t in Run(hash, ops).ssi.active && t in Run(hash, ops).access
    requires Retained(Run(hash, ops).ssi, t, readTs)
    ensures ExactAt(hash, Run(hash, ops), t, readTs)
    ensures readTs <= Run(hash, ops).access[t].least && Run(hash, ops).ssi.active[t].doomed ==>
              !Clear(hash, Run(hash, ops), t, readTs)
  {
    hide Run, RunAllowed, LogReadConflict, LogPhantom, ReadConflict, Phantom, CommittedOk, SerializableLog, PrunedOk;
    var h := Run(hash, ops);
    RunKeepsInv(hash, ops);
    forall commitTs | commitTs > h.clock
      ensures Accepts(h.ssi, t, readTs, commitTs) <==> Clear(hash, h, t, readTs) && !h.ssi.active[t].doomed
    {
      ReadConflictIsLogged(hash, h, t, readTs, commitTs);
      PhantomIsLogged(hash, h, t, readTs, commitTs);
    }
    if h.ssi.active[t].doomed && readTs <= h.access[t].least {
      EarlierConflicts(hash, h.log, h.access[t].readKeys, h.access[t].least, readTs);
    }
  }

  predicate CollisionFree(hash: Hasher, keys: set<bytes>) {
    forall a, b :: a in keys && b in keys && hash(a) == hash(b) ==> a == b
  }

  /** Where the keys in use do not collide, the only conflicts are real ones. */
  lemma CollisionFreeConflictIsReal(hash: Hasher, used: set<bytes>, log: seq<Commit>, keys: set<bytes>, readTs: nat)
    requires CollisionFree(hash, used) && keys <= used
    requires forall i :: 0 <= i < |log| ==> log[i].writeKeys <= used
    ensures LogReadConflict(hash, log, keys, readTs) <==>
              exists i :: 0 <= i < |log| && log[i].commitTs > readTs && log[i].writeKeys * keys != {}
  {
    forall i | 0 <= i < |log|
      ensures Hashes(hash, log[i].writeKeys) * Hashes(hash, keys) != {} <==> log[i].writeKeys * keys != {}
    {
      ImagesMeet(hash, used, log[i].writeKeys, keys);
    }
  }

  lemma ImagesMeet(hash: Hasher, used: set<bytes>, a: set<bytes>, b: set<bytes>)
    requires CollisionFree(hash, used) && a <= used && b <= used
    ensures Hashes(hash, a) * Hashes(hash, b) != {} <==> a * b != {}
  {
    if x :| x in Hashes(hash, a) * Hashes(hash, b) {
      var k :| k in a && hash(k) == x;
      assert k in a * b;
    }
    SharedKeyIsSharedHash(hash, a, b);
  }

  // ---------------------------------------------------------------- pruning is invisible

  /** The same run without its `advance_watermark` steps. */
  function Unpruned(ops: seq<SsiOp>): seq<SsiOp> {
    if ops == [] then []
    else
      var rest := Unpruned(ops[..|ops| - 1]);
      if ops[|ops| - 1].OpAdvance? then rest else rest + [ops[|ops| - 1]]
  }

  /** The validation looks at nothing that may have been pruned. */
  predicate LooksAtRetained(h: History, op: SsiOp) {
    op.OpValidate? && op.txnId in h.ssi.active ==> Retained(h.ssi, op.txnId, op.readTs)
  }

  ghost predicate RunLooksAtRetained(hash: Hasher, ops: seq<SsiOp>) {
    ops == [] ||
    (RunLooksAtRetained(hash, ops[..|ops| - 1]) && LooksAtRetained(Run(hash, ops[..|ops| - 1]), ops[|ops| - 1]))
  }

  /** Equal but for what the watermark dropped, and nothing was dropped from `b`. */
  predicate SameButPruned(a: History, b: History) {
    && b.ssi.watermark == 0
    && a.access == b.access && a.log == b.log && a.clock == b.clock
    && a.ssi.active == b.ssi.active && a.ssi.startTs == b.ssi.startTs && a.ssi.readOnly == b.ssi.readOnly
  }

  lemma SameAnswer(hash: Hasher, a: History, b: History, op: SsiOp)
    requires Inv(hash, a) && Inv(hash, b) && SameButPruned(a, b) && Allowed(a, op) && LooksAtRetained(a, op)
    ensures Answer(a, op) <==> Answer(b, op)
    ensures op.OpValidate? && op.txnId in a.ssi.active ==>
              (Doomed(a.ssi, op.txnId, op.readTs, op.commitTs) <==> Doomed(b.ssi, op.txnId, op.readTs, op.commitTs))
  {
    hide LogReadConflict, LogPhantom, ReadConflict, Phantom, CommittedOk, SerializableLog, PrunedOk, LogOk, DoomedOk;
    if op.OpValidate? && op.txnId in a.ssi.active {
      ReadConflictIsLogged(hash, a, op.txnId, op.readTs, op.commitTs);
      ReadConflictIsLogged(hash, b, op.txnId, op.readTs, op.commitTs);
      PhantomIsLogged(hash, a, op.txnId, op.readTs, op.commitTs);
      PhantomIsLogged(hash, b, op.txnId, op.readTs, op.commitTs);
    }
  }

  /** What a validation does to everything but the retained commits. */
  lemma ValidationStep(hash: Hasher, h: History, op: SsiOp)
    requires Inv(hash, h) && op.OpValidate? && op.txnId in h.ssi.active
    ensures var t, h' := op.txnId, Step(hash, h, op);
            && h'.clock == op.commitTs && h'.ssi.readOnly == h.ssi.readOnly
            && if Accepts(h.ssi, t, op.readTs, op.commitTs) then
                 && h'.access == h.access - {t} && h'.ssi.active == h.ssi.active - {t}
                 && h'.ssi.startTs == h.ssi.startTs - {t}
                 && h'.log == h.log + [CommitOf(h, t, op.readTs, op.commitTs, op.keys)]
               else
                 && h'.access == NoteRefused(h.access, t, op.readTs) && h'.ssi.startTs == h.ssi.startTs
                 && h'.log == h.log
                 && h'.ssi.active ==
                      h.ssi.active[t := h.ssi.active[t].(doomed := Doomed(h.ssi, t, op.readTs, op.commitTs))]
  {
    hide Inv, Accepts, Doomed;
    OpenTxn(hash, h, op.txnId);
  }

  lemma SameSince(a: History, b: History, op: SsiOp)
    requires SameButPruned(a, b) && LooksAtRetained(a, op) && op.OpValidate? && op.txnId in a.ssi.active
    ensures Since(a.ssi, op.txnId, op.readTs) == Since(b.ssi, op.txnId, op.readTs)
  {
  }

  lemma SameValidation(hash: Hasher, a: History, b: History, op: SsiOp)
    requires Inv(hash, a) && Inv(hash, b) && SameButPruned(a, b) && Allowed(a, op) && LooksAtRetained(a, op)
    requires op.OpValidate?
    ensures SameButPruned(Step(hash, a, op), Step(hash, b, op))
  {
    hide Inv, Allowed, Accepts, Doomed, LooksAtRetained;
    if op.txnId in a.ssi.active {
      hide Step;
      SameAnswer(hash, a, b, op);
      ValidationStep(hash, a, op);
      ValidationStep(hash, b, op);
      SameSince(a, b, op);
    } else {
      NotOpen(hash, a, op.txnId);
    }
  }

  lemma SameOther(hash: Hasher, a: History, b: History, op: SsiOp)
    requires SameButPruned(a, b) && !op.OpValidate?
    ensures SameButPruned(Step(hash, a, op), if op.OpAdvance? then b else Step(hash, b, op))
  {
    hide Validate;
  }

  lemma SameStep(hash: Hasher, a: History, b: History, op: SsiOp)
    requires Inv(hash, a) && Inv(hash, b) && SameButPruned(a, b) && Allowed(a, op) && LooksAtRetained(a, op)
    ensures SameButPruned(Step(hash, a, op), if op.OpAdvance? then b else Step(hash, b, op))
  {
    hide Step, Inv, SameButPruned;
    if op.OpValidate? {
      SameValidation(hash, a, b, op);
    } else {
      SameOther(hash, a, b, op);
    }
  }

  lemma {:induction false} UnprunedFollows(hash: Hasher, ops: seq<SsiOp>)
    requires RunAllowed(hash, ops) && RunLooksAtRetained(hash, ops)
    ensures RunAllowed(hash, Unpruned(ops))
    ensures SameButPruned(Run(hash, ops), Run(hash, Unpruned(ops)))
  {
    if ops != [] {
      var prefix, op := ops[..|ops| - 1], ops[|ops| - 1];
      UnprunedFollows(hash, prefix);
      RunKeepsInv(hash, prefix);
      RunKeepsInv(hash, Unpruned(prefix));
      SameStep(hash, Run(hash, prefix), Run(hash, Unpruned(prefix)), op);
      if !op.OpAdvance? {
        assert (Unpruned(prefix) + [op])[..|Unpruned(prefix)|] == Unpruned(prefix);
      }
      hide Inv, Step;
    }
  }

  /** No watermark ever changes the answer of a later operation that looks at nothing pruned. */
  lemma PruningIsInvisible(hash: Hasher, ops: seq<SsiOp>, op: SsiOp)
    requires RunAllowed(hash, ops) && Allowed(Run(hash, ops), op)
    requires RunLooksAtRetained(hash, ops) && LooksAtRetained(Run(hash, ops), op)
    ensures RunAllowed(hash, Unpruned(ops))
    ensures Run(hash, ops).log == Run(hash, Unpruned(ops)).log
    ensures Answer(Run(hash, ops), op) <==> Answer(Run(hash, Unpruned(ops)), op)
  {
    UnprunedFollows(hash, ops);
    RunKeepsInv(hash, ops);
    RunKeepsInv(hash, Unpruned(ops));
    SameAnswer(hash, Run(hash, ops), Run(hash, Unpruned(ops)), op);
  }

  lemma OneMore(hash: Hasher, ops: seq<SsiOp>, op: SsiOp)
    ensures Run(hash, ops + [op]) == Step(hash, Run(hash, ops), op)
    ensures RunAllowed(hash, ops + [op]) <==> RunAllowed(hash, ops) && Allowed(Run(hash, ops), op)
    ensures RunLooksAtRetained(hash, ops + [op]) <==>
            RunLooksAtRetained(hash, ops) && LooksAtRetained(Run(hash, ops), op)
  {
    hide Step, Allowed, LooksAtRetained;
    assert (ops + [op])[..|ops|] == ops;
  }

  // ---------------------------------------------------------------- when pruning shows

  /** Transaction 1 starts at `r`, writes a key and commits right after, and the watermark moves on. */
  function Overwrite(key: bytes, r: nat, watermark: nat): seq<SsiOp> {
    [OpBegin(1, r)] + [OpWrite(1, key)] + [OpValidate(1, r, r + 1, [])] + [OpAdvance(watermark)]
  }

  /** Then transaction 2 reads the key. */
  function Stale(key: bytes, r: nat, watermark: nat, start: nat): seq<SsiOp> {
    Overwrite(key, r, watermark) + [OpBegin(2, start)] + [OpRead(2, key)]
  }

  function Written(hash: Hasher, key: bytes, r: nat): History {
    History(Ssi(map[], map[1 := Active({}, {hash(key)}, [], false)], map[1 := r], {}, 0),
            map[1 := Access(r, {}, {key}, [], r)], [], r)
  }

  function Pruned(key: bytes, r: nat, watermark: nat): History {
    History(Ssi(map[], map[], map[], {}, watermark), map[], [Commit(r, r, r + 1, {}, {key}, [], [])], r + 1)
  }

  lemma WriteStep(hash: Hasher, key: bytes, r: nat)
    ensures Step(hash, Step(hash, NewHistory, OpBegin(1, r)), OpWrite(1, key)) == Written(hash, key, r)
  {
    var h := Step(hash, NewHistory, OpBegin(1, r));
    assert h == History(Ssi(map[], map[1 := NewActive], map[1 := r], {}, 0), map[1 := Access(r, {}, {}, [], r)], [], r);
    assert NewActive.writeKeys + {hash(key)} == {hash(key)};
    assert Access(r, {}, {}, [], r).writeKeys + {key} == {key};
  }

  lemma PruneStep(hash: Hasher, key: bytes, r: nat, watermark: nat)
    requires r + 1 < watermark
    ensures Step(hash, Step(hash, Written(hash, key, r), OpValidate(1, r, r + 1, [])), OpAdvance(watermark)) ==
            Pruned(key, r, watermark)
  {
    var h := Step(hash, Written(hash, key, r), OpValidate(1, r, r + 1, []));
    assert h.ssi.committed == map[r + 1 := CommittedTxn(r, {}, {hash(key)}, [])];
    assert h.ssi.active == map[] && h.ssi.startTs == map[] && h.access == map[];
  }

  /** What is left of the run: transaction 2 with its read, and no commit in the validator. */
  predicate EndsStale(hash: Hasher, key: bytes, r: nat, watermark: nat, start: nat, h: History) {
    && h.ssi == Ssi(map[], map[2 := Active({hash(key)}, {}, [], false)], map[2 := start], {}, watermark)
    && h.access == map[2 := Access(start, {key}, {}, [], start)]
    && h.log == Pruned(key, r, watermark).log && h.clock == start
  }

  lemma ReadStep(hash: Hasher, key: bytes, r: nat, watermark: nat, start: nat)
    ensures EndsStale(hash, key, r, watermark, start,
                      Step(hash, Step(hash, Pruned(key, r, watermark), OpBegin(2, start)), OpRead(2, key)))
  {
    var h := Step(hash, Pruned(key, r, watermark), OpBegin(2, start));
    assert h.ssi == Ssi(map[], map[2 := NewActive], map[2 := start], {}, watermark);
    assert NewActive.readKeys + {hash(key)} == {hash(key)};
    assert Access(start, {}, {}, [], start).readKeys + {key} == {key};
  }

  lemma OverwriteRun(hash: Hasher, key: bytes, r: nat, watermark: nat)
    requires 0 < r && r + 1 < watermark
    ensures RunAllowed(hash, Overwrite(key, r, watermark)) && RunLooksAtRetained(hash, Overwrite(key, r, watermark))
    ensures Run(hash, Overwrite(key, r, watermark)) == Pruned(key, r, watermark)
  {
    assert Run(hash, []) == NewHistory && RunAllowed(hash, []) && RunLooksAtRetained(hash, []);
    hide Run, RunAllowed, RunLooksAtRetained;
    OneMore(hash, [], OpBegin(1, r));
    OneMore(hash, [OpBegin(1, r)], OpWrite(1, key));
    OneMore(hash, [OpBegin(1, r)] + [OpWrite(1, key)], OpValidate(1, r, r + 1, []));
    OneMore(hash, [OpBegin(1, r)] + [OpWrite(1, key)] + [OpValidate(1, r, r + 1, [])], OpAdvance(watermark));
    assert [] + [OpBegin(1, r)] == [OpBegin(1, r)];
    WriteStep(hash, key, r);
    PruneStep(hash, key, r, watermark);
    assert BelowAllStarts(Step(hash, Written(hash, key, r), OpValidate(1, r, r + 1, [])).ssi, watermark);
    hide Step;
  }

  lemma StaleRun(hash: Hasher, key: bytes, r: nat, watermark: nat, start: nat)
    requires 0 < r && r + 1 < watermark && r + 1 < start
    ensures RunAllowed(hash, Stale(key, r, watermark, start))
    ensures RunLooksAtRetained(hash, Stale(key, r, watermark, start))
    ensures EndsStale(hash, key, r, watermark, start, Run(hash, Stale(key, r, watermark, start)))
  {
    hide Run, RunAllowed, RunLooksAtRetained, Overwrite, Step;
    OverwriteRun(hash, key, r, watermark);
    OneMore(hash, Overwrite(key, r, watermark), OpBegin(2, start));
    OneMore(hash, Overwrite(key, r, watermark) + [OpBegin(2, start)], OpRead(2, key));
    ReadStep(hash, key, r, watermark, start);
  }

  /** In that run the overwrite is in the log, and nothing in the validator shows it. */
  lemma StaleIsOverlooked(hash: Hasher, key: bytes, r: nat, watermark: nat, start: nat, h: History, readTs: nat,
                          commitTs: nat)
    requires EndsStale(hash, key, r, watermark, start, h) && readTs <= r
    ensures 2 in h.ssi.active && 2 in h.access && !Clear(hash, h, 2, readTs) && !h.ssi.active[2].doomed
    ensures Accepts(h.ssi, 2, readTs, commitTs)
  {
    assert hash(key) in Hashes(hash, h.log[0].writeKeys) * Hashes(hash, h.access[2].readKeys);
    assert LogReadConflict(hash, h.log, h.access[2].readKeys, readTs);
  }

  /**
   Wherever something that may have been pruned lies between the read timestamp and both the own start and
   the watermark, there is a run in which transaction 2 is accepted although its key was overwritten after
   its read timestamp, and refused had nothing been pruned.
   */
  lemma StaleReadIsAccepted(hash: Hasher, key: bytes, readTs: nat, watermark: nat, start: nat, commitTs: nat)
    requires NextCommit(readTs) < watermark && NextCommit(readTs) < start < commitTs
    ensures var ops := Stale(key, NextCommit(readTs) - 1, watermark, start);
            && RunAllowed(hash, ops) && EndsWith(Run(hash, ops), 2, start, watermark)
            && !Clear(hash, Run(hash, ops), 2, readTs) && !ExactAt(hash, Run(hash, ops), 2, readTs)
            && Accepts(Run(hash, ops).ssi, 2, readTs, commitTs)
            && RunAllowed(hash, Unpruned(ops)) && !Accepts(Run(hash, Unpruned(ops)).ssi, 2, readTs, commitTs)
  {
    hide Run, RunAllowed, RunLooksAtRetained, Unpruned, Stale, Accepts;
    var r := NextCommit(readTs) - 1;
    var ops := Stale(key, r, watermark, start);
    StaleRun(hash, key, r, watermark, start);
    UnprunedFollows(hash, ops);
    StaleIsOverlooked(hash, key, r, watermark, start, Run(hash, ops), readTs, commitTs);
    ValidationIsExact(hash, Unpruned(ops), 2, readTs);
    hide LogReadConflict, LogPhantom;
  }

  /** `t` is open in the state a run ends with, with that start and under that watermark. */
  predicate EndsWith(h: History, t: TxnId, start: nat, watermark: nat) {
    && t in h.ssi.active && t in h.access
    && t in h.ssi.startTs && h.ssi.startTs[t] == start && h.ssi.watermark == watermark
  }

  /**
   Validation at a read timestamp is exact after every run that ends with a given own start and watermark
   if and only if nothing can commit between the read timestamp and the lower of the two.
   */
  lemma ValidationIsExactIff(hash: Hasher, readTs: nat, start: nat, watermark: nat)
    ensures (forall ops, t | RunAllowed(hash, ops) && EndsWith(Run(hash, ops), t, start, watermark) ::
               ExactAt(hash, Run(hash, ops), t, readTs))
            <==> start <= NextCommit(readTs) || watermark <= NextCommit(readTs)
  {
    hide ExactAt, RunAllowed, Run;
    if start <= NextCommit(readTs) || watermark <= NextCommit(readTs) {
      forall ops, t | RunAllowed(hash, ops) && EndsWith(Run(hash, ops), t, start, watermark)
        ensures ExactAt(hash, Run(hash, ops), t, readTs)
      {
        ValidationIsExact(hash, ops, t, readTs);
      }
    } else {
      StaleReadIsAccepted(hash, [], readTs, watermark, start, start + 1);
    }
  }
}
