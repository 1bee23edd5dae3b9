/**
 Runs of the engine of crabstash-txn/src/mvcc.rs. Over every run, running the committed transactions
 one after the other in commit order gives the same store, and gives every committed Serializable
 transaction the same answers it got; garbage collection of commit records changes no answer.
 */
module TxnRuns {
  import opened Bytes
  import opened Graph
  import opened TxnState
  import SsiState

  // ---------------------------------------------------------------- programs

  /** One successful operation of a transaction, with what it answered. */
  datatype Event = EGet(key: bytes, result: Option<bytes>) | EPut(key: bytes, value: bytes) | EDelete(key: bytes)

  type Program = seq<Event>

  function Perform(w: WriteSet, event: Event): (r: WriteSet)
    ensures w.Disjoint() ==> r.Disjoint()
  {
    match event
    case EGet(_, _) => w
    case EPut(k, v) => w.Put(k, v)
    case EDelete(k) => w.Delete(k)
  }

  /** The write set a program builds. */
  function WritesOf(p: Program): (w: WriteSet)
    ensures w.Disjoint()
  {
    if p == [] then NoWrites else Perform(WritesOf(p[..|p| - 1]), p[|p| - 1])
  }

  /** What the last put or delete of the key in a program leaves: a value, or nothing. */
  function Latest(p: Program, key: bytes): Option<Option<bytes>> {
    if p == [] then None
    else
      match p[|p| - 1]
      case EPut(k, v) => if k == key then Some(Some(v)) else Latest(p[..|p| - 1], key)
      case EDelete(k) => if k == key then Some(None) else Latest(p[..|p| - 1], key)
      case EGet(_, _) => Latest(p[..|p| - 1], key)
  }

  /** A write set holds the last put or delete of each key, and no other key. */
  lemma {:induction false} WritesAreLatest(p: Program, key: bytes)
    ensures WritesOf(p).Get(key) == Latest(p, key)
    ensures key in WritesOf(p).Keys() <==> Latest(p, key).Some?
  {
    if p != [] {
      WritesAreLatest(p[..|p| - 1], key);
    }
  }

  /** The `i`th operation, run again over `store`, answers the same. */
  predicate SameAnswerAt(p: Program, i: nat, store: Store)
    requires i < |p|
  {
    p[i].EGet? ==>
      p[i].result == match Latest(p[..i], p[i].key) case Some(own) => own case None => Lookup(store, p[i].key)
  }

  predicate Reexecutes(p: Program, store: Store) {
    forall i :: 0 <= i < |p| ==> SameAnswerAt(p, i, store)
  }

  // ---------------------------------------------------------------- history

  datatype LogEntry = LogEntry(commitTs: nat, startTs: nat, isolation: IsolationLevel, program: Program)

  /** What the caller of `begin` asked for, and the start timestamp it was given. */
  datatype Request = Request(startTs: nat, isolation: IsolationLevel)

  /** `clock` is the last timestamp the oracle gave out. */
  datatype History = History(
    engine: Engine,
    asked: map<TxnId, Request>,
    programs: map<TxnId, Program>,
    log: seq<LogEntry>,
    clock: nat)

  const NewHistory := History(NewEngine, map[], map[], [], 0)

  /** Serial execution: the store after the logged programs, one after the other. */
  function Replay(log: seq<LogEntry>): Store {
    if log == [] then map[] else WritesOf(log[|log| - 1].program).ApplyTo(Replay(log[..|log| - 1]))
  }

  /** Every Serializable program in the log gets its own answers again from the store just before it. */
  predicate SeriallyConsistent(log: seq<LogEntry>) {
    forall j :: 0 <= j < |log| && log[j].isolation.Serializable? ==> Reexecutes(log[j].program, Replay(log[..j]))
  }

  datatype Op =
    | OpBegin(id: TxnId, startTs: nat, isolation: IsolationLevel)
    | OpGet(id: TxnId, key: bytes)
    | OpPut(id: TxnId, key: bytes, value: bytes, locked: bool)
    | OpDelete(id: TxnId, key: bytes, locked: bool)
    | OpCommit(id: TxnId, commitTs: nat)
    | OpAbort(id: TxnId)
    | OpGc(watermark: nat)

  /** A Snapshot transaction is open, or wrote nothing. */
  predicate HarmlessWhenEnded(t: Txn) {
    t.isolation.Snapshot? ==> t.state.Open? || t.writeSet.Keys() == {}
  }

  /**
   Fresh ids and strictly increasing timestamps; a deferrable transaction may start at any safe
   snapshot. A Snapshot transaction that has ended is committed again only if it wrote nothing, which is
   exactly when that is harmless (`EndedCommitIsHarmless`), and commit records are collected no further
   than the oldest open transaction.
   */
  predicate Allowed(h: History, op: Op) {
    match op
    case OpBegin(id, startTs, isolation) => id !in h.engine.txns && (isolation.IsDeferrable() || startTs > h.clock)
    case OpCommit(id, commitTs) =>
      && id in h.engine.txns && commitTs > h.clock
      && HarmlessWhenEnded(h.engine.txns[id])
    case OpGc(w) => forall id :: id in h.engine.active && id in h.engine.txns ==> w <= h.engine.txns[id].startTs
    case _ => op.id in h.engine.txns
  }

  /** A write goes through when the transaction may write and the lock manager granted the key. */
  predicate Writes(h: History, id: TxnId, locked: bool)
    requires id in h.engine.txns
  {
    locked && !h.engine.txns[id].isolation.IsReadOnly()
  }

  function Note(programs: map<TxnId, Program>, id: TxnId, event: Event): map<TxnId, Program> {
    if id in programs then programs[id := programs[id] + [event]] else programs
  }

  ghost function Step(hash: Hasher, h: History, op: Op): History
    requires Allowed(h, op)
  {
    match op
    case OpBegin(id, startTs, isolation) =>
      History(Begin(h.engine, id, startTs, isolation), h.asked[id := Request(startTs, isolation)],
              h.programs[id := []], h.log, if isolation.IsDeferrable() then h.clock else startTs)
    case OpGet(id, key) =>
      var (e, result) := Get(hash, h.engine, id, key);
      h.(engine := e, programs := Note(h.programs, id, EGet(key, result)))
    case OpPut(id, key, value, locked) =>
      if !Writes(h, id, locked) then h
      else h.(engine := Write(hash, h.engine, id, key, Some(value)), programs := Note(h.programs, id, EPut(key, value)))
    case OpDelete(id, key, locked) =>
      if !Writes(h, id, locked) then h
      else h.(engine := Write(hash, h.engine, id, key, None), programs := Note(h.programs, id, EDelete(key)))
    case OpCommit(id, commitTs) =>
      h.(engine := Commit(h.engine, id, commitTs),
         log := if StatusOfCommit(h.engine, id, commitTs).Done? && id in h.programs && id in h.asked
                then h.log + [LogEntry(commitTs, h.asked[id].startTs, h.asked[id].isolation, h.programs[id])]
                else h.log,
         clock := commitTs)
    case OpAbort(id) => h.(engine := Abort(h.engine, id))
    case OpGc(w) => h.(engine := Gc(h.engine, w))
  }

  // ---------------------------------------------------------------- the invariant

  predicate LogOk(log: seq<LogEntry>, clock: nat) {
    && (forall i :: 0 <= i < |log| ==> log[i].startTs < log[i].commitTs <= clock)
    && (forall i, j :: 0 <= i < j < |log| ==> log[i].commitTs < log[j].commitTs)
  }

  function RecordOf(c: LogEntry): CommittedWrites {
    CommittedWrites(c.commitTs, c.startTs, WritesOf(c.program).Keys())
  }

  predicate ProgramsOk(txns: map<TxnId, Txn>, programs: map<TxnId, Program>) {
    programs.Keys == txns.Keys && forall id :: id in txns ==> txns[id].writeSet == WritesOf(programs[id])
  }

  ghost predicate ActiveOk(e: Engine, clock: nat) {
    && (forall id :: id in e.active <==> id in e.txns && e.txns[id].state.Open?)
    && (forall id :: id in e.active && !e.txns[id].isolation.IsReadOnly() ==> e.txns[id].startTs <= clock)
    && (forall id :: id in e.ssi.active ==> id in e.active && e.txns[id].isolation.Serializable?)
  }

  /** Every transaction runs at the level that was asked for, from the start timestamp it was given. */
  predicate AskedOk(txns: map<TxnId, Txn>, asked: map<TxnId, Request>) {
    asked.Keys == txns.Keys
    && forall id :: id in txns ==> txns[id].startTs == asked[id].startTs && txns[id].isolation == asked[id].isolation
  }

  ghost predicate TxnsOk(h: History) {
    && ProgramsOk(h.engine.txns, h.programs)
    && AskedOk(h.engine.txns, h.asked)
    && ActiveOk(h.engine, h.clock)
  }

  /** An open transaction whose commit would be validated. */
  predicate ToValidate(e: Engine, id: TxnId) {
    id in e.txns && e.txns[id].state.Open? && e.txns[id].isolation.Serializable?
  }

  predicate InLog(c: CommittedWrites, log: seq<LogEntry>) {
    exists i :: 0 <= i < |log| && RecordOf(log[i]) == c
  }

  /** Every record comes from the log, and only records older than the open transactions are gone. */
  ghost predicate RecordsOk(h: History) {
    && (forall c :: c in h.engine.committed ==> InLog(c, h.log))
    && (forall i, id :: 0 <= i < |h.log| && ToValidate(h.engine, id) ==>
          h.log[i].commitTs <= h.engine.txns[id].startTs || RecordOf(h.log[i]) in h.engine.committed)
  }

  /** A key overwritten by a transaction that committed after `startTs`. */
  predicate Overwritten(log: seq<LogEntry>, key: bytes, startTs: nat) {
    exists i :: 0 <= i < |log| && log[i].commitTs > startTs && key in WritesOf(log[i].program).Keys()
  }

  /** What an open Serializable transaction read from the store is tracked, and current or overwritten since. */
  predicate ReadOk(t: Txn, p: Program, i: nat, store: Store, log: seq<LogEntry>)
    requires i < |p|
  {
    p[i].EGet? ==>
      match WritesOf(p[..i]).Get(p[i].key)
      case Some(own) => p[i].result == own
      case None =>
        && p[i].key in t.readSet
        && (p[i].result == Lookup(store, p[i].key) || Overwritten(log, p[i].key, t.startTs))
  }

  ghost predicate ReadsOk(h: History) {
    forall id, i :: ToValidate(h.engine, id) && id in h.programs && 0 <= i < |h.programs[id]| ==>
      ReadOk(h.engine.txns[id], h.programs[id], i, h.engine.store, h.log)
  }

  ghost predicate Inv(h: History) {
    && LogOk(h.log, h.clock) && TxnsOk(h) && RecordsOk(h) && ReadsOk(h)
    && h.engine.store == Replay(h.log)
    && SeriallyConsistent(h.log)
  }

  // ---------------------------------------------------------------- reads and writes

  lemma NotedProgram(p: Program, event: Event)
    ensures WritesOf(p + [event]) == Perform(WritesOf(p), event)
  {
    assert (p + [event])[..|p|] == p;
  }

  /** Changing anything but the write set of a transaction. */
  lemma SamePrograms(txns: map<TxnId, Txn>, programs: map<TxnId, Program>, id: TxnId, t: Txn)
    requires ProgramsOk(txns, programs) && id in txns && t.writeSet == txns[id].writeSet
    ensures ProgramsOk(txns[id := t], programs)
  {
    hide WritesOf;
  }

  /** A transaction has ended, and the SSI manager has forgotten it. */
  lemma EndedActive(e: Engine, e': Engine, id: TxnId, t: Txn, clock: nat, clock': nat)
    requires ActiveOk(e, clock) && clock <= clock'
    requires id in e.txns && !t.state.Open? && e'.txns == e.txns[id := t] && e'.active == e.active - {id}
    requires e'.ssi.active.Keys <= e.ssi.active.Keys - {id}
    ensures ActiveOk(e', clock')
  {
  }

  lemma LogOkLater(log: seq<LogEntry>, clock: nat, clock': nat)
    requires LogOk(log, clock) && clock <= clock'
    ensures LogOk(log, clock')
  {
  }

  lemma BeginTxnsOk(hash: Hasher, h: History, op: Op)
    requires TxnsOk(h) && Allowed(h, op) && op.OpBegin?
    ensures TxnsOk(Step(hash, h, op))
  {
    hide ProgramsOk, AskedOk, ActiveOk, Step;
    BeginPrograms(hash, h, op);
    BeginAsked(hash, h, op);
    BeginActive(hash, h, op);
  }

  lemma BeginActive(hash: Hasher, h: History, op: Op)
    requires ActiveOk(h.engine, h.clock) && Allowed(h, op) && op.OpBegin?
    ensures ActiveOk(Step(hash, h, op).engine, Step(hash, h, op).clock)
  {
  }

  lemma BeginPrograms(hash: Hasher, h: History, op: Op)
    requires ProgramsOk(h.engine.txns, h.programs) && Allowed(h, op) && op.OpBegin?
    ensures ProgramsOk(Step(hash, h, op).engine.txns, Step(hash, h, op).programs)
  {
    assert WritesOf([]) == NoWrites;
    hide WritesOf;
  }

  lemma BeginAsked(hash: Hasher, h: History, op: Op)
    requires AskedOk(h.engine.txns, h.asked) && Allowed(h, op) && op.OpBegin?
    ensures AskedOk(Step(hash, h, op).engine.txns, Step(hash, h, op).asked)
  {
  }

  /** A transaction changes neither its level nor its start. */
  lemma SameAsked(txns: map<TxnId, Txn>, asked: map<TxnId, Request>, id: TxnId, t: Txn)
    requires AskedOk(txns, asked) && id in txns && t.startTs == txns[id].startTs && t.isolation == txns[id].isolation
    ensures AskedOk(txns[id := t], asked)
  {
  }

  lemma BeginRest(hash: Hasher, h: History, op: Op)
    requires Inv(h) && Allowed(h, op) && op.OpBegin?
    ensures RecordsOk(Step(hash, h, op)) && ReadsOk(Step(hash, h, op)) && LogOk(h.log, Step(hash, h, op).clock)
  {
    hide SeriallyConsistent, Replay, ReadOk, InLog, RecordOf, TxnsOk;
  }

  lemma NotedTxnsOk(h: History, h': History, id: TxnId, t: Txn, event: Event)
    requires TxnsOk(h) && id in h.engine.txns
    requires h'.engine.txns == h.engine.txns[id := t] && h'.programs == Note(h.programs, id, event)
    requires t.state == h.engine.txns[id].state && t.isolation == h.engine.txns[id].isolation
    requires t.startTs == h.engine.txns[id].startTs && h'.clock == h.clock && h'.engine.active == h.engine.active
    requires h'.asked == h.asked
    requires h'.engine.ssi.active.Keys == h.engine.ssi.active.Keys
    requires t.writeSet == Perform(h.engine.txns[id].writeSet, event)
    ensures TxnsOk(h')
  {
    NotedPrograms(h.engine.txns, h.programs, id, t, event);
    NotedActive(h.engine, h'.engine, id, t, h.clock);
    SameAsked(h.engine.txns, h.asked, id, t);
    hide ProgramsOk, AskedOk, ActiveOk, Perform;
  }

  lemma NotedActive(e: Engine, e': Engine, id: TxnId, t: Txn, clock: nat)
    requires ActiveOk(e, clock) && id in e.txns && e'.txns == e.txns[id := t]
    requires t.state == e.txns[id].state && t.isolation == e.txns[id].isolation && t.startTs == e.txns[id].startTs
    requires e'.active == e.active && e'.ssi.active.Keys == e.ssi.active.Keys
    ensures ActiveOk(e', clock)
  {
  }

  lemma NotedPrograms(txns: map<TxnId, Txn>, programs: map<TxnId, Program>, id: TxnId, t: Txn, event: Event)
    requires ProgramsOk(txns, programs) && id in txns
    requires t.writeSet == Perform(txns[id].writeSet, event)
    ensures ProgramsOk(txns[id := t], Note(programs, id, event))
  {
    NotedProgram(programs[id], event);
    hide WritesOf, Perform;
  }

  lemma GetTxnsOk(hash: Hasher, h: History, op: Op)
    requires TxnsOk(h) && Allowed(h, op) && op.OpGet?
    ensures TxnsOk(Step(hash, h, op))
  {
    hide TxnsOk;
    var h', event := Step(hash, h, op), EGet(op.key, Get(hash, h.engine, op.id, op.key).1);
    assert h.engine.txns[op.id := h.engine.txns[op.id]] == h.engine.txns;
    NotedTxnsOk(h, h', op.id, h'.engine.txns[op.id], event);
  }

  lemma WriteTxnsOk(hash: Hasher, h: History, op: Op)
    requires TxnsOk(h) && Allowed(h, op) && (op.OpPut? || op.OpDelete?)
    ensures TxnsOk(Step(hash, h, op))
  {
    hide TxnsOk;
    if Writes(h, op.id, op.locked) {
      var h', event := Step(hash, h, op), if op.OpPut? then EPut(op.key, op.value) else EDelete(op.key);
      NotedTxnsOk(h, h', op.id, h'.engine.txns[op.id], event);
    }
  }

  lemma EventRecordsOk(hash: Hasher, h: History, op: Op)
    requires RecordsOk(h) && Allowed(h, op) && (op.OpPut? || op.OpDelete? || op.OpGet?)
    ensures RecordsOk(Step(hash, h, op))
  {
    hide RecordOf, InLog;
  }

  lemma NotedReadsOk(h: History, h': History, id: TxnId, t: Txn, event: Event)
    requires ReadsOk(h) && id in h.engine.txns && id in h.programs
    requires h'.engine.txns == h.engine.txns[id := t] && h'.programs == Note(h.programs, id, event)
    requires t.state == h.engine.txns[id].state && t.isolation == h.engine.txns[id].isolation
    requires t.startTs == h.engine.txns[id].startTs && h.engine.txns[id].readSet <= t.readSet
    requires h'.log == h.log && h'.engine.store == h.engine.store
    requires event.EGet? && t.isolation.Serializable? ==>
               match WritesOf(h.programs[id]).Get(event.key)
               case Some(own) => event.result == own
               case None => event.key in t.readSet && event.result == Lookup(h.engine.store, event.key)
    ensures ReadsOk(h')
  {
    var p := h.programs[id];
    if ToValidate(h'.engine, id) {
      forall i | 0 <= i <= |p| ensures ReadOk(t, p + [event], i, h.engine.store, h.log) {
        assert (p + [event])[..i] == p[..i];
        if i < |p| {
          assert ReadOk(h.engine.txns[id], p, i, h.engine.store, h.log);
        } else {
          assert p[..i] == p;
        }
        hide Overwritten, WritesOf;
      }
    }
    hide ReadOk;
  }

  lemma WriteReadsOk(hash: Hasher, h: History, op: Op)
    requires ReadsOk(h) && TxnsOk(h) && Allowed(h, op) && (op.OpPut? || op.OpDelete?)
    ensures ReadsOk(Step(hash, h, op))
  {
    hide ReadsOk, WritesOf;
    if Writes(h, op.id, op.locked) {
      var h', event := Step(hash, h, op), if op.OpPut? then EPut(op.key, op.value) else EDelete(op.key);
      NotedReadsOk(h, h', op.id, h'.engine.txns[op.id], event);
    }
  }

  lemma GetReadsOk(hash: Hasher, h: History, op: Op)
    requires ReadsOk(h) && TxnsOk(h) && Allowed(h, op) && op.OpGet?
    ensures ReadsOk(Step(hash, h, op))
  {
    hide ReadsOk, WritesOf;
    var h', event := Step(hash, h, op), EGet(op.key, Get(hash, h.engine, op.id, op.key).1);
    assert h.engine.txns[op.id := h.engine.txns[op.id]] == h.engine.txns;
    NotedReadsOk(h, h', op.id, h'.engine.txns[op.id], event);
  }

  lemma EndTxnsOk(hash: Hasher, h: History, op: Op)
    requires TxnsOk(h) && Allowed(h, op) && (op.OpAbort? || op.OpGc?)
    ensures TxnsOk(Step(hash, h, op))
  {
    hide ProgramsOk, AskedOk, ActiveOk, KeepAfter;
    if op.OpAbort? {
      var t := h.engine.txns[op.id].(state := Aborted);
      var e' := Abort(h.engine, op.id);
      SamePrograms(h.engine.txns, h.programs, op.id, t);
      SameAsked(h.engine.txns, h.asked, op.id, t);
      AbortedSsi(h.engine, op.id, h.clock);
      EndedActive(h.engine, e', op.id, t, h.clock, h.clock);
    }
    if op.OpGc? {
      CollectedActive(h.engine, op.watermark, h.clock);
    }
  }

  lemma CollectedActive(e: Engine, watermark: nat, clock: nat)
    requires ActiveOk(e, clock)
    ensures ActiveOk(Gc(e, watermark), clock)
  {
    hide KeepAfter;
  }

  lemma AbortedSsi(e: Engine, id: TxnId, clock: nat)
    requires ActiveOk(e, clock) && id in e.txns
    ensures Abort(e, id).ssi.active.Keys <= e.ssi.active.Keys - {id}
  {
  }

  lemma EndRest(hash: Hasher, h: History, op: Op)
    requires Inv(h) && Allowed(h, op) && (op.OpAbort? || op.OpGc?)
    ensures RecordsOk(Step(hash, h, op)) && ReadsOk(Step(hash, h, op))
  {
    hide SeriallyConsistent, Replay, InLog, LogOk, ReadOk, WritesOf;
  }

  // ---------------------------------------------------------------- commits

  /** What is committed is open, and an allowed commit that reaches the last check and fails wrote nothing. */
  lemma CommitIsOfOpen(h: History, op: Op)
    requires TxnsOk(h) && Allowed(h, op) && op.OpCommit?
    ensures var status := StatusOfCommit(h.engine, op.id, op.commitTs);
            && (status.NotOpen? ==> h.engine.txns[op.id].writeSet.ApplyTo(h.engine.store) == h.engine.store)
            && (status.Done? ==> op.id in h.engine.active)
  {
    var t := h.engine.txns[op.id];
    if t.writeSet.Keys() == {} {
      assert t.writeSet.puts == map[];
    }
  }

  /** A refused commit may note conflicts and a commit timestamp; it changes neither log nor store. */
  lemma RefusalStep(hash: Hasher, h: History, op: Op)
    requires TxnsOk(h) && Allowed(h, op) && op.OpCommit? && !StatusOfCommit(h.engine, op.id, op.commitTs).Done?
    ensures var e, e', t := h.engine, Step(hash, h, op).engine, h.engine.txns[op.id];
            && (e'.txns == e.txns || e'.txns == e.txns[op.id := t.(commitTs := Some(op.commitTs))])
            && e'.store == e.store && e'.active == e.active && e'.committed == e.committed
            && e'.ssi.active.Keys <= e.ssi.active.Keys
            && Step(hash, h, op) == h.(engine := e', clock := op.commitTs)
  {
    hide ReadsStillCurrent, SsiState.Doomed, SsiState.Phantom, WriteSet.ApplyTo, TxnsOk;
    CommitIsOfOpen(h, op);
  }

  /** Only the clock, the SSI manager and the commit timestamp of one transaction have changed. */
  ghost predicate OnlyRefused(h: History, h': History, id: TxnId, commitTs: nat) {
    && id in h.engine.txns && h.clock < commitTs && h'.clock == commitTs
    && h'.log == h.log && h'.programs == h.programs && h'.asked == h.asked
    && (h'.engine.txns == h.engine.txns
        || h'.engine.txns == h.engine.txns[id := h.engine.txns[id].(commitTs := Some(commitTs))])
    && h'.engine.store == h.engine.store && h'.engine.committed == h.engine.committed
    && h'.engine.active == h.engine.active && h'.engine.ssi.active.Keys <= h.engine.ssi.active.Keys
  }

  lemma RefusedPrograms(h: History, h': History, id: TxnId, commitTs: nat)
    requires OnlyRefused(h, h', id, commitTs)
    requires ProgramsOk(h.engine.txns, h.programs) && AskedOk(h.engine.txns, h.asked)
    ensures ProgramsOk(h'.engine.txns, h'.programs) && AskedOk(h'.engine.txns, h'.asked)
  {
    hide ProgramsOk, AskedOk;
    SamePrograms(h.engine.txns, h.programs, id, h.engine.txns[id].(commitTs := Some(commitTs)));
    SameAsked(h.engine.txns, h.asked, id, h.engine.txns[id].(commitTs := Some(commitTs)));
  }

  lemma RefusedActive(h: History, h': History, id: TxnId, commitTs: nat)
    requires OnlyRefused(h, h', id, commitTs) && ActiveOk(h.engine, h.clock)
    ensures ActiveOk(h'.engine, h'.clock)
  {
  }

  lemma RefusedRecords(h: History, h': History, id: TxnId, commitTs: nat)
    requires OnlyRefused(h, h', id, commitTs) && RecordsOk(h)
    ensures RecordsOk(h')
  {
    hide RecordOf, InLog;
  }

  lemma RefusedReads(h: History, h': History, id: TxnId, commitTs: nat)
    requires OnlyRefused(h, h', id, commitTs) && ReadsOk(h)
    ensures ReadsOk(h')
  {
    forall k, i | ToValidate(h'.engine, k) && k in h'.programs && 0 <= i < |h'.programs[k]|
      ensures ReadOk(h'.engine.txns[k], h'.programs[k], i, h'.engine.store, h'.log)
    {
      assert ReadOk(h.engine.txns[k], h.programs[k], i, h.engine.store, h.log);
      hide WritesOf, Overwritten;
    }
    hide ReadOk;
  }

  lemma RefusalKeepsInv(hash: Hasher, h: History, op: Op)
    requires Inv(h) && Allowed(h, op) && op.OpCommit? && !StatusOfCommit(h.engine, op.id, op.commitTs).Done?
    ensures Inv(Step(hash, h, op))
  {
    RefusalStep(hash, h, op);
    LogOkLater(h.log, h.clock, op.commitTs);
    hide Step, StatusOfCommit, ProgramsOk, AskedOk, ActiveOk, RecordsOk, ReadsOk, Replay, SeriallyConsistent, LogOk;
    var h' := Step(hash, h, op);
    assert OnlyRefused(h, h', op.id, op.commitTs);
    hide Allowed, OnlyRefused;
    RefusedPrograms(h, h', op.id, op.commitTs);
    RefusedActive(h, h', op.id, op.commitTs);
    RefusedRecords(h, h', op.id, op.commitTs);
    RefusedReads(h, h', op.id, op.commitTs);
  }

  lemma CommitTxnsOk(hash: Hasher, h: History, op: Op)
    requires TxnsOk(h) && Allowed(h, op) && op.OpCommit? && StatusOfCommit(h.engine, op.id, op.commitTs).Done?
    ensures TxnsOk(Step(hash, h, op))
  {
    hide Commit, StatusOfCommit, WritesOf, ProgramsOk, AskedOk, ActiveOk;
    var e, e', t := h.engine, Commit(h.engine, op.id, op.commitTs), h.engine.txns[op.id];
    DoneCommit(e, op.id, op.commitTs, h.clock);
    CommitIsOfOpen(h, op);
    SamePrograms(e.txns, h.programs, op.id, e'.txns[op.id]);
    SameAsked(e.txns, h.asked, op.id, e'.txns[op.id]);
    EndedActive(e, e', op.id, e'.txns[op.id], h.clock, op.commitTs);
  }

  lemma DoneCommit(e: Engine, id: TxnId, commitTs: nat, clock: nat)
    requires ActiveOk(e, clock) && id in e.txns && StatusOfCommit(e, id, commitTs).Done?
    ensures var e', t := Commit(e, id, commitTs), e.txns[id];
            && e'.txns == e.txns[id := t.(commitTs := Some(commitTs), state := Committed)]
            && e'.active == e.active - {id} && e'.ssi.active.Keys <= e.ssi.active.Keys - {id}
            && e'.store == t.writeSet.ApplyTo(e.store)
            && e'.committed == e.committed + [CommittedWrites(commitTs, t.startTs, t.writeSet.Keys())]
  {
    hide ReadsStillCurrent, SsiState.Doomed, SsiState.Phantom, WriteSet.ApplyTo;
  }

  /** `h'` is `h` after a commit of `id` that went through: its program is in the log and in the store. */
  ghost predicate Logged(h: History, h': History, id: TxnId) {
    && id in h.programs && id in h.engine.txns && id in h.asked
    && h'.log == h.log + [LogEntry(h'.clock, h.asked[id].startTs, h.asked[id].isolation, h.programs[id])]
    && h.asked[id].startTs == h.engine.txns[id].startTs && h.asked[id].isolation == h.engine.txns[id].isolation
    && h'.engine.store == WritesOf(h.programs[id]).ApplyTo(h.engine.store)
    && h'.engine.committed == h.engine.committed + [RecordOf(h'.log[|h.log|])]
    && h.clock < h'.clock && h'.programs == h.programs
    && (forall k :: ToValidate(h'.engine, k) ==> ToValidate(h.engine, k) && h'.engine.txns[k] == h.engine.txns[k])
  }

  lemma CommitStep(hash: Hasher, h: History, op: Op)
    requires TxnsOk(h) && Allowed(h, op) && op.OpCommit? && StatusOfCommit(h.engine, op.id, op.commitTs).Done?
    ensures Logged(h, Step(hash, h, op), op.id)
  {
    hide WritesOf, Commit, StatusOfCommit, ActiveOk;
    DoneCommit(h.engine, op.id, op.commitTs, h.clock);
  }

  /** What is committed began before, and its reads were validated if it is Serializable. */
  lemma CommitIsValidated(h: History, op: Op)
    requires TxnsOk(h) && Allowed(h, op) && op.OpCommit? && StatusOfCommit(h.engine, op.id, op.commitTs).Done?
    ensures var t := h.engine.txns[op.id];
            && t.startTs <= h.clock
            && (t.isolation.Serializable? ==>
                  ToValidate(h.engine, op.id) && ReadsStillCurrent(h.engine.committed, t, op.commitTs))
  {
    hide ReadsStillCurrent, SsiAgrees;
    CommitIsOfOpen(h, op);
  }

  lemma LongerLog(log: seq<LogEntry>, c: LogEntry, r: CommittedWrites)
    ensures InLog(r, log) ==> InLog(r, log + [c])
    ensures InLog(RecordOf(c), log + [c])
  {
    hide RecordOf;
    assert (log + [c])[|log|] == c;
    if i :| 0 <= i < |log| && RecordOf(log[i]) == r {
      assert (log + [c])[i] == log[i];
    }
  }

  lemma CommitRecordsOk(h: History, h': History, id: TxnId)
    requires RecordsOk(h) && Logged(h, h', id)
    ensures RecordsOk(h')
  {
    hide RecordOf, ToValidate, WritesOf, InLog;
    forall c | c in h'.engine.committed ensures InLog(c, h'.log) {
      LongerLog(h.log, h'.log[|h.log|], c);
    }
  }

  lemma CommitLogOk(h: History, h': History, id: TxnId)
    requires LogOk(h.log, h.clock) && Logged(h, h', id) && h.engine.txns[id].startTs <= h.clock
    ensures LogOk(h'.log, h'.clock)
  {
    hide RecordOf, ToValidate, WritesOf;
  }

  lemma LongerLogOverwrites(log: seq<LogEntry>, c: LogEntry, key: bytes, startTs: nat)
    ensures Overwritten(log, key, startTs) ==> Overwritten(log + [c], key, startTs)
    ensures c.commitTs > startTs && key in WritesOf(c.program).Keys() ==> Overwritten(log + [c], key, startTs)
  {
    hide WritesOf;
    assert (log + [c])[|log|] == c;
    if Overwritten(log, key, startTs) {
      var i :| 0 <= i < |log| && log[i].commitTs > startTs && key in WritesOf(log[i].program).Keys();
      assert (log + [c])[i] == log[i];
    }
  }

  lemma CommitReadsOk(h: History, h': History, id: TxnId)
    requires ReadsOk(h) && TxnsOk(h) && Logged(h, h', id)
    ensures ReadsOk(h')
  {
    hide ReadOk, WritesOf, RecordOf, ProgramsOk;
    forall k, i | ToValidate(h'.engine, k) && k in h'.programs && 0 <= i < |h'.programs[k]|
      ensures ReadOk(h'.engine.txns[k], h'.programs[k], i, h'.engine.store, h'.log)
    {
      assert ReadOk(h.engine.txns[k], h.programs[k], i, h.engine.store, h.log);
      ReadSurvives(h.engine.txns[k], h.programs[k], i, h.engine.store, h.log, h'.log[|h.log|]);
    }
  }

  /** A commit keeps a tracked read current unless it overwrites the key. */
  lemma ReadSurvives(t: Txn, p: Program, i: nat, store: Store, log: seq<LogEntry>, c: LogEntry)
    requires i < |p| && ReadOk(t, p, i, store, log) && c.commitTs > t.startTs
    ensures ReadOk(t, p, i, WritesOf(c.program).ApplyTo(store), log + [c])
  {
    if p[i].EGet? {
      LongerLogOverwrites(log, c, p[i].key, t.startTs);
    }
    hide WritesOf, Overwritten;
  }

  /** Validation means that nothing the transaction read was overwritten since it began. */
  lemma ValidatedIsCurrent(h: History, id: TxnId, commitTs: nat, key: bytes)
    requires Inv(h) && ToValidate(h.engine, id) && commitTs > h.clock
    requires ReadsStillCurrent(h.engine.committed, h.engine.txns[id], commitTs) && key in h.engine.txns[id].readSet
    ensures !Overwritten(h.log, key, h.engine.txns[id].startTs)
  {
    hide WritesOf, ReadsOk, TxnsOk, SeriallyConsistent, Replay, InLog;
    var t := h.engine.txns[id];
    forall i | 0 <= i < |h.log| && h.log[i].commitTs > t.startTs ensures key !in WritesOf(h.log[i].program).Keys() {
      var c := RecordOf(h.log[i]);
      assert c in h.engine.committed;
      var k :| 0 <= k < |h.engine.committed| && h.engine.committed[k] == c;
      assert c.keys * t.readSet == {};
      assert key in WritesOf(h.log[i].program).Keys() ==> key in c.keys * t.readSet;
    }
  }

  /** So its whole program, run again just before its commit, answers the same. */
  lemma ValidatedReexecutes(h: History, id: TxnId, commitTs: nat)
    requires Inv(h) && ToValidate(h.engine, id) && commitTs > h.clock && id in h.programs
    requires ReadsStillCurrent(h.engine.committed, h.engine.txns[id], commitTs)
    ensures Reexecutes(h.programs[id], h.engine.store)
  {
    var t, p := h.engine.txns[id], h.programs[id];
    forall i | 0 <= i < |p| ensures SameAnswerAt(p, i, h.engine.store) {
      assert ReadOk(t, p, i, h.engine.store, h.log);
      if p[i].EGet? {
        WritesAreLatest(p[..i], p[i].key);
        if p[i].key in t.readSet {
          ValidatedIsCurrent(h, id, commitTs, p[i].key);
        }
      }
      hide Inv, ReadsStillCurrent, Overwritten, WritesOf;
    }
    hide Inv, ReadsStillCurrent, SameAnswerAt;
  }

  /** The store stays the replay of the log. */
  lemma ReplayOneMore(log: seq<LogEntry>, c: LogEntry)
    ensures Replay(log + [c]) == WritesOf(c.program).ApplyTo(Replay(log))
  {
    assert (log + [c])[..|log|] == log;
    hide WritesOf;
  }

  lemma SerialOneMore(log: seq<LogEntry>, c: LogEntry)
    requires SeriallyConsistent(log) && (c.isolation.Serializable? ==> Reexecutes(c.program, Replay(log)))
    ensures SeriallyConsistent(log + [c])
  {
    hide Reexecutes, Replay;
    var more := log + [c];
    forall j | 0 <= j < |more| && more[j].isolation.Serializable?
      ensures Reexecutes(more[j].program, Replay(more[..j]))
    {
      assert more[..j] == log[..j];
      if j == |log| {
        assert log[..j] == log;
      }
    }
  }

  lemma CommitSerial(h: History, h': History, id: TxnId)
    requires Inv(h) && Logged(h, h', id)
    requires h.engine.txns[id].isolation.Serializable? ==>
               ToValidate(h.engine, id) && ReadsStillCurrent(h.engine.committed, h.engine.txns[id], h'.clock)
    ensures h'.engine.store == Replay(h'.log)
    ensures SeriallyConsistent(h'.log)
  {
    hide Reexecutes, Replay, WritesOf, ToValidate, ReadsStillCurrent, RecordOf, LogOk, TxnsOk, RecordsOk, ReadsOk;
    hide SeriallyConsistent;
    if h.engine.txns[id].isolation.Serializable? {
      ValidatedReexecutes(h, id, h'.clock);
    }
    ReplayOneMore(h.log, h'.log[|h.log|]);
    SerialOneMore(h.log, h'.log[|h.log|]);
  }

  lemma CommitKeepsInv(hash: Hasher, h: History, op: Op)
    requires Inv(h) && Allowed(h, op) && op.OpCommit? && StatusOfCommit(h.engine, op.id, op.commitTs).Done?
    ensures Inv(Step(hash, h, op))
  {
    var h' := Step(hash, h, op);
    assert h'.clock == op.commitTs;
    CommitStep(hash, h, op);
    CommitIsValidated(h, op);
    CommitTxnsOk(hash, h, op);
    hide TxnsOk, RecordsOk, ReadsOk, SeriallyConsistent, LogOk, Step, Replay, ToValidate, StatusOfCommit, Allowed;
    CommitSerial(h, h', op.id);
    CommitRecordsOk(h, h', op.id);
    CommitLogOk(h, h', op.id);
    CommitReadsOk(h, h', op.id);
    hide Logged;
  }

  /** Beginning, reading, writing, aborting and collecting leave the log and the store alone. */
  lemma QuietStep(hash: Hasher, h: History, op: Op)
    requires Allowed(h, op) && !op.OpCommit?
    ensures Step(hash, h, op).log == h.log && Step(hash, h, op).engine.store == h.engine.store
    ensures op.OpBegin? || Step(hash, h, op).clock == h.clock
  {
  }

  lemma EventKeepsInv(hash: Hasher, h: History, op: Op)
    requires Inv(h) && Allowed(h, op) && (op.OpPut? || op.OpDelete? || op.OpGet?)
    ensures Inv(Step(hash, h, op))
  {
    hide TxnsOk, RecordsOk, ReadsOk, SeriallyConsistent, LogOk, Step, Replay, Allowed;
    QuietStep(hash, h, op);
    EventRecordsOk(hash, h, op);
    if op.OpGet? {
      GetTxnsOk(hash, h, op);
      GetReadsOk(hash, h, op);
    } else {
      WriteTxnsOk(hash, h, op);
      WriteReadsOk(hash, h, op);
    }
  }

  lemma OtherKeepsInv(hash: Hasher, h: History, op: Op)
    requires Inv(h) && Allowed(h, op) && (op.OpBegin? || op.OpAbort? || op.OpGc?)
    ensures Inv(Step(hash, h, op))
  {
    hide TxnsOk, RecordsOk, ReadsOk, SeriallyConsistent, LogOk, Step, Replay, Allowed;
    QuietStep(hash, h, op);
    if op.OpBegin? {
      BeginTxnsOk(hash, h, op);
      BeginRest(hash, h, op);
    } else {
      EndTxnsOk(hash, h, op);
      EndRest(hash, h, op);
    }
  }

  lemma StepKeepsInv(hash: Hasher, h: History, op: Op)
    requires Inv(h) && Allowed(h, op)
    ensures Inv(Step(hash, h, op))
  {
    hide Inv, Step;
    if op.OpCommit? {
      if StatusOfCommit(h.engine, op.id, op.commitTs).Done? {
        CommitKeepsInv(hash, h, op);
      } else {
        RefusalKeepsInv(hash, h, op);
      }
    } else if op.OpPut? || op.OpDelete? || op.OpGet? {
      EventKeepsInv(hash, h, op);
    } else {
      OtherKeepsInv(hash, h, op);
    }
  }

  // ---------------------------------------------------------------- main results

  ghost predicate RunAllowed(hash: Hasher, ops: seq<Op>) {
    ops == [] ||
    (RunAllowed(hash, ops[..|ops| - 1]) && Allowed(Run(hash, ops[..|ops| - 1]), ops[|ops| - 1]))
  }

  /** A run as far as every step is allowed. */
  ghost function Run(hash: Hasher, ops: seq<Op>): History {
    if ops == [] then NewHistory
    else
      var h := Run(hash, ops[..|ops| - 1]);
      if Allowed(h, ops[|ops| - 1]) then Step(hash, h, ops[|ops| - 1]) else h
  }

  lemma NewInv()
    ensures Inv(NewHistory)
  {
  }

  lemma {:induction false} RunKeepsInv(hash: Hasher, ops: seq<Op>)
    requires RunAllowed(hash, ops)
    ensures Inv(Run(hash, ops))
  {
    if ops == [] {
      NewInv();
    } else {
      RunKeepsInv(hash, ops[..|ops| - 1]);
      StepKeepsInv(hash, Run(hash, ops[..|ops| - 1]), ops[|ops| - 1]);
    }
  }

  /**
   Serial replay. Running the committed programs one after the other in commit order rebuilds the store,
   and gives each committed Serializable program, reads of its own writes included, its own answers.
   */
  lemma RunIsSerial(hash: Hasher, ops: seq<Op>)
    requires RunAllowed(hash, ops)
    ensures Run(hash, ops).engine.store == Replay(Run(hash, ops).log)
    ensures SeriallyConsistent(Run(hash, ops).log)
    ensures LogOk(Run(hash, ops).log, Run(hash, ops).clock)
  {
    RunKeepsInv(hash, ops);
  }

  // ---------------------------------------------------------------- collecting commit records

  /** The answer of the validation, in terms of the whole log. */
  lemma ValidationIsLogged(h: History, id: TxnId, commitTs: nat)
    requires Inv(h) && ToValidate(h.engine, id) && commitTs > h.clock
    ensures ReadsStillCurrent(h.engine.committed, h.engine.txns[id], commitTs) <==>
              forall i :: 0 <= i < |h.log| && h.log[i].commitTs > h.engine.txns[id].startTs ==>
                WritesOf(h.log[i].program).Keys() * h.engine.txns[id].readSet == {}
  {
    hide WritesOf, ReadsOk, TxnsOk, SeriallyConsistent, Replay;
    var t, committed := h.engine.txns[id], h.engine.committed;
    if ReadsStillCurrent(committed, t, commitTs) {
      forall i | 0 <= i < |h.log| && h.log[i].commitTs > t.startTs
        ensures WritesOf(h.log[i].program).Keys() * t.readSet == {}
      {
        assert RecordOf(h.log[i]) in committed;
        var k :| 0 <= k < |committed| && committed[k] == RecordOf(h.log[i]);
      }
    } else {
      var k :| 0 <= k < |committed| && committed[k].commitTs > t.startTs && committed[k].keys * t.readSet != {};
      assert InLog(committed[k], h.log);
    }
  }

  function Uncollected(ops: seq<Op>): seq<Op> {
    if ops == [] then []
    else
      var rest := Uncollected(ops[..|ops| - 1]);
      if ops[|ops| - 1].OpGc? then rest else rest + [ops[|ops| - 1]]
  }

  /** Equal but for the commit records that were collected. */
  predicate SameButCollected(a: History, b: History) {
    && a.asked == b.asked && a.programs == b.programs && a.log == b.log && a.clock == b.clock
    && a.engine.(committed := []) == b.engine.(committed := [])
  }

  lemma AgreedIsOpen(h: History, id: TxnId, commitTs: nat)
    requires Inv(h) && id in h.engine.txns && h.engine.txns[id].isolation.Serializable?
    requires SsiAgrees(h.engine, id, commitTs)
    ensures ToValidate(h.engine, id)
  {
    hide LogOk, RecordsOk, ReadsOk, Replay, SeriallyConsistent, ProgramsOk, SsiState.Doomed, SsiState.Phantom;
  }

  lemma SameStatus(a: History, b: History, op: Op)
    requires Inv(a) && Inv(b) && SameButCollected(a, b) && Allowed(a, op) && op.OpCommit?
    ensures StatusOfCommit(a.engine, op.id, op.commitTs) == StatusOfCommit(b.engine, op.id, op.commitTs)
  {
    hide Inv, ReadsStillCurrent, SsiState.Accepts;
    assert a.engine.txns == b.engine.txns && a.engine.ssi == b.engine.ssi;
    var t := a.engine.txns[op.id];
    if t.isolation.Serializable? && SsiState.Accepts(a.engine.ssi, op.id, t.startTs, op.commitTs) {
      AgreedIsOpen(a, op.id, op.commitTs);
      hide Inv, ToValidate;
      ValidationIsLogged(a, op.id, op.commitTs);
      ValidationIsLogged(b, op.id, op.commitTs);
      assert ReadsStillCurrent(a.engine.committed, t, op.commitTs) <==>
             ReadsStillCurrent(b.engine.committed, t, op.commitTs);
    }
  }

  lemma SameFinish(e: Engine, ssi: SsiState.Ssi, committed: seq<CommittedWrites>, id: TxnId, commitTs: nat)
    requires id in e.txns && FinishStatus(e, id, commitTs) == FinishStatus(e.(committed := committed), id, commitTs)
    ensures Finished(e.(ssi := ssi), id, commitTs).(committed := []) ==
            Finished(e.(ssi := ssi, committed := committed), id, commitTs).(committed := [])
  {
    hide ReadsStillCurrent, WriteSet.ApplyTo, WriteSet.Keys;
  }

  lemma SameCommit(hash: Hasher, a: History, b: History, op: Op)
    requires Inv(a) && Inv(b) && SameButCollected(a, b) && Allowed(a, op) && op.OpCommit?
    ensures SameButCollected(Step(hash, a, op), Step(hash, b, op))
  {
    hide Inv, FinishStatus, Finished, SsiState.Accepts, SsiState.Validate;
    SameStatus(a, b, op);
    var e, committed := a.engine, b.engine.committed;
    assert b.engine == e.(committed := committed);
    if !e.txns[op.id].isolation.IsReadOnly() && SsiAgrees(e, op.id, op.commitTs) {
      SameFinish(e, SsiValidated(e, op.id, op.commitTs), committed, op.id, op.commitTs);
    }
  }

  lemma SameOther(hash: Hasher, a: History, b: History, op: Op)
    requires SameButCollected(a, b) && Allowed(a, op) && !op.OpCommit?
    ensures op.OpGc? || Allowed(b, op)
    ensures SameButCollected(Step(hash, a, op), if op.OpGc? then b else Step(hash, b, op))
  {
    hide KeepAfter;
  }

  lemma {:induction false} UncollectedFollows(hash: Hasher, ops: seq<Op>)
    requires RunAllowed(hash, ops)
    ensures RunAllowed(hash, Uncollected(ops))
    ensures SameButCollected(Run(hash, ops), Run(hash, Uncollected(ops)))
  {
    if ops != [] {
      var prefix, op := ops[..|ops| - 1], ops[|ops| - 1];
      UncollectedFollows(hash, prefix);
      var a, b := Run(hash, prefix), Run(hash, Uncollected(prefix));
      if op.OpCommit? {
        RunKeepsInv(hash, prefix);
        RunKeepsInv(hash, Uncollected(prefix));
        SameCommit(hash, a, b, op);
      } else {
        SameOther(hash, a, b, op);
      }
      if !op.OpGc? {
        assert (Uncollected(prefix) + [op])[..|Uncollected(prefix)|] == Uncollected(prefix);
      }
      hide Inv, Step;
    }
  }

  /** No collection below the open transactions ever changes how a later commit ends. */
  lemma CollectionIsInvisible(hash: Hasher, ops: seq<Op>, op: Op)
    requires RunAllowed(hash, ops) && Allowed(Run(hash, ops), op) && op.OpCommit?
    ensures RunAllowed(hash, Uncollected(ops))
    ensures Run(hash, ops).log == Run(hash, Uncollected(ops)).log
    ensures op.id in Run(hash, Uncollected(ops)).engine.txns
    ensures StatusOfCommit(Run(hash, ops).engine, op.id, op.commitTs) ==
            StatusOfCommit(Run(hash, Uncollected(ops)).engine, op.id, op.commitTs)
  {
    UncollectedFollows(hash, ops);
    RunKeepsInv(hash, ops);
    RunKeepsInv(hash, Uncollected(ops));
    SameStatus(Run(hash, ops), Run(hash, Uncollected(ops)), op);
  }

  // ---------------------------------------------------------------- reading a key twice

  /** What the last program of the log that writes the key leaves under it. */
  function LastWrite(log: seq<LogEntry>, key: bytes): Option<Option<bytes>> {
    if log == [] then None
    else
      match Latest(log[|log| - 1].program, key)
      case Some(written) => Some(written)
      case None => LastWrite(log[..|log| - 1], key)
  }

  lemma {:induction false} ReplayOnTop(before: seq<LogEntry>, after: seq<LogEntry>, key: bytes)
    ensures Lookup(Replay(before + after), key) ==
            match LastWrite(after, key) case Some(written) => written case None => Lookup(Replay(before), key)
    decreases |after|
  {
    hide WritesOf, WriteSet.Get, WriteSet.ApplyTo;
    if after == [] {
      assert before + after == before;
    } else {
      var init, last := after[..|after| - 1], after[|after| - 1];
      assert (before + after)[..|before + after| - 1] == before + init;
      ReplayOnTop(before, init, key);
      WritesAreLatest(last.program, key);
      ReadThroughIsApplied(WritesOf(last.program), Replay(before + init), key);
    }
  }

  /** The store that serial execution builds holds under each key the last put of the whole log, unless deleted. */
  lemma ReplayIsLatest(log: seq<LogEntry>, key: bytes)
    ensures Lookup(Replay(log), key) == match LastWrite(log, key) case Some(written) => written case None => None
  {
    assert [] + log == log;
    ReplayOnTop([], log, key);
  }

  lemma StepGrowsLog(hash: Hasher, h: History, op: Op)
    requires Allowed(h, op)
    ensures h.log <= Step(hash, h, op).log
    ensures h.engine.txns.Keys <= Step(hash, h, op).engine.txns.Keys
  {
    hide SsiState.Validate, SsiState.Accepts, ReadsStillCurrent, WriteSet.ApplyTo;
  }

  lemma {:induction false} LogGrows(hash: Hasher, ops: seq<Op>, more: seq<Op>)
    requires RunAllowed(hash, ops + more)
    ensures RunAllowed(hash, ops)
    ensures Run(hash, ops).log <= Run(hash, ops + more).log
    ensures Run(hash, ops).engine.txns.Keys <= Run(hash, ops + more).engine.txns.Keys
    decreases |more|
  {
    hide Step, Allowed;
    if more == [] {
      assert ops + more == ops;
    } else {
      var init := more[..|more| - 1];
      assert (ops + more)[..|ops + more| - 1] == ops + init;
      LogGrows(hash, ops, init);
      StepGrowsLog(hash, Run(hash, ops + init), more[|more| - 1]);
    }
  }

  /** The transaction has not written the key itself. */
  predicate ReadsStore(h: History, id: TxnId, key: bytes) {
    id in h.engine.txns && h.engine.txns[id].writeSet.Get(key).None?
  }

  /**
   Two reads of a key by one transaction that does not write it answer the same precisely when the
   last commit between them that writes the key, if any, wrote the value read first.
   */
  lemma RereadsAgreeExactly(hash: Hasher, ops: seq<Op>, more: seq<Op>, id: TxnId, key: bytes)
    requires RunAllowed(hash, ops + more)
    requires ReadsStore(Run(hash, ops), id, key) && ReadsStore(Run(hash, ops + more), id, key)
    ensures Run(hash, ops).log <= Run(hash, ops + more).log
    ensures var h, h' := Run(hash, ops), Run(hash, ops + more);
            var first := Get(hash, h.engine, id, key).1;
            Get(hash, h'.engine, id, key).1 == first <==>
            LastWrite(h'.log[|h.log|..], key) in {None, Some(first)}
  {
    hide Run, Replay, LastWrite, RunAllowed, Inv, ReadsStore, Get;
    LogGrows(hash, ops, more);
    StoreIsReplay(hash, ops);
    StoreIsReplay(hash, ops + more);
    var h, h' := Run(hash, ops), Run(hash, ops + more);
    ReadFromStore(hash, h, id, key);
    ReadFromStore(hash, h', id, key);
    SuffixDecides(h.log, h'.log, key);
  }

  lemma SuffixDecides(before: seq<LogEntry>, log: seq<LogEntry>, key: bytes)
    requires before <= log
    ensures Lookup(Replay(log), key) == Lookup(Replay(before), key) <==>
            LastWrite(log[|before|..], key) in {None, Some(Lookup(Replay(before), key))}
  {
    hide Replay, LastWrite, Lookup;
    var after := log[|before|..];
    assert before + after == log;
    ReplayOnTop(before, after, key);
  }

  lemma StoreIsReplay(hash: Hasher, ops: seq<Op>)
    requires RunAllowed(hash, ops)
    ensures Run(hash, ops).engine.store == Replay(Run(hash, ops).log)
  {
    RunKeepsInv(hash, ops);
  }

  lemma ReadFromStore(hash: Hasher, h: History, id: TxnId, key: bytes)
    requires ReadsStore(h, id, key)
    ensures Get(hash, h.engine, id, key).1 == Lookup(h.engine.store, key)
  {
  }

  /** Transaction 1 reads a key before and after transaction 2 writes it and commits: it sees both values. */
  lemma SnapshotReadsTwoValues(hash: Hasher, key: bytes, value: bytes)
    ensures var e := Begin(Begin(NewEngine, 1, 1, Snapshot), 2, 2, Snapshot);
            var e' := Commit(Write(hash, e, 2, key, Some(value)), 2, 3);
            && e'.txns[1] == e.txns[1]
            && Get(hash, e, 1, key).1 == None && Get(hash, e', 1, key).1 == Some(value)
  {
  }

  // ---------------------------------------------------------------- committing a transaction that has ended

  /** The store a commit leaves when it finds `store`. */
  ghost function CommitOver(e: Engine, store: Store, id: TxnId, commitTs: nat): Store
    requires id in e.txns
  {
    Commit(e.(store := store), id, commitTs).store
  }

  /** A commit that is refused leaves every store as it was. */
  ghost predicate RefusalIsHarmless(e: Engine, id: TxnId, commitTs: nat)
    requires id in e.txns
  {
    !StatusOfCommit(e, id, commitTs).Done? ==> forall store :: CommitOver(e, store, id, commitTs) == store
  }

  /**
   The engine writes to storage before it checks that the transaction is still open, so a refused
   commit is harmless exactly when the transaction is not an ended Snapshot transaction with writes.
   */
  lemma EndedCommitIsHarmless(h: History, id: TxnId, commitTs: nat)
    requires Inv(h) && id in h.engine.txns && commitTs > h.clock
    ensures RefusalIsHarmless(h.engine, id, commitTs) <==>
            HarmlessWhenEnded(h.engine.txns[id])
  {
    hide Inv, StatusOfCommit, CommitOver, WriteSet.ApplyTo;
    NotOpenIsEndedSnapshot(h, id, commitTs);
    forall store
      ensures CommitOver(h.engine, store, id, commitTs) ==
              if StatusOfCommit(h.engine, id, commitTs) in {NotOpen, Done}
              then h.engine.txns[id].writeSet.ApplyTo(store) else store
    {
      CommitOverApplies(h.engine, store, id, commitTs);
    }
    NoKeysNoChange(h.engine.txns[id].writeSet);
  }

  lemma CommitOverApplies(e: Engine, store: Store, id: TxnId, commitTs: nat)
    requires id in e.txns
    ensures CommitOver(e, store, id, commitTs) ==
            if StatusOfCommit(e, id, commitTs) in {NotOpen, Done} then e.txns[id].writeSet.ApplyTo(store) else store
  {
    hide SsiState.Accepts, SsiState.Validate, ReadsStillCurrent, WriteSet.ApplyTo;
  }

  /** A Serializable transaction that has ended is refused before anything is written. */
  lemma NotOpenIsEndedSnapshot(h: History, id: TxnId, commitTs: nat)
    requires Inv(h) && id in h.engine.txns
    ensures StatusOfCommit(h.engine, id, commitTs).NotOpen? <==>
            h.engine.txns[id].isolation.Snapshot? && !h.engine.txns[id].state.Open?
    ensures h.engine.txns[id].writeSet.Disjoint()
  {
    hide LogOk, RecordsOk, ReadsOk, Replay, SeriallyConsistent, ReadsStillCurrent, SsiState.Doomed, SsiState.Phantom;
    assert WritesOf(h.programs[id]).Disjoint();
    hide WritesOf;
  }

  /** Some store shows the writes, unless there are none. */
  lemma NoKeysNoChange(w: WriteSet)
    requires w.Disjoint()
    ensures w.Keys() == {} <==> forall store :: w.ApplyTo(store) == store
  {
    if key :| key in w.puts {
      assert key in w.ApplyTo(map[]);
    } else if key :| key in w.deletes {
      assert key !in w.ApplyTo(map[key := []]);
    } else {
      assert w.puts == map[] && w.deletes == {};
    }
  }

  /** An aborted Snapshot transaction: its commit is refused, and its write is in the store all the same. */
  lemma AbortedSnapshotStillWrites(hash: Hasher, key: bytes, value: bytes)
    ensures var e := Abort(Write(hash, Begin(NewEngine, 1, 1, Snapshot), 1, key, Some(value)), 1);
            && e.store == map[] && e.txns[1].state == Aborted
            && StatusOfCommit(e, 1, 2) == NotOpen
            && Commit(e, 1, 2).store == map[key := value]
  {
  }
}
