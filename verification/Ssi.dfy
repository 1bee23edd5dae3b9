/**
 `SSIManager` of crabstash-lock/src/ssi.rs: the maps, counters, inverted index and bloom filter its
 methods update in place, and their agreement with the validation functions of `SsiState`.
 */
module Ssi {
  import opened Bytes
  import opened Graph
  import opened LockModes
  import opened SsiState

  // ---------------------------------------------------------------- bloom filter

  const BLOOM_SIZE_BITS: nat := 8192
  const BLOOM_WORDS: nat := 128

  type Index = i: int | 0 <= i < BLOOM_SIZE_BITS

  /** The three bit positions of a hash; sums wrap at 64 bits. */
  function BitIndices(hash: u64): (r: seq<Index>)
    ensures |r| == 3
  {
    var h2, h3 := hash / 0x1_0000, hash / 0x1_0000_0000;
    [hash % BLOOM_SIZE_BITS,
     ((hash + h2) % U64_MOD) % BLOOM_SIZE_BITS,
     (((hash + h2) % U64_MOD + h3) % U64_MOD) % BLOOM_SIZE_BITS]
  }

  /** A 64-bit word, as the set of its one bits. */
  type Word = set<int>

  class BloomFilter {
    const words: array<Word>

    constructor ()
      ensures Valid() && fresh(words) && Bits() == {}
    {
      words := new Word[BLOOM_WORDS](_ => {});
    }

    predicate Valid() {
      words.Length == BLOOM_WORDS
    }

    predicate Has(i: Index)
      requires Valid()
      reads words
    {
      i % 64 in words[i / 64]
    }

    ghost function Bits(): set<Index>
      requires Valid()
      reads words
    {
      set i: Index | Has(i)
    }

    method Insert(hash: u64)
      requires Valid()
      modifies words
      ensures Bits() == old(Bits()) + Positions(hash)
    {
      var indices := BitIndices(hash);
      for k := 0 to 3
        invariant forall i: Index :: Has(i) <==> old(Has(i)) || i in indices[..k]
      {
        var idx := indices[k];
        words[idx / 64] := words[idx / 64] + {idx % 64};
        assert forall i: Index :: i / 64 == idx / 64 && i % 64 == idx % 64 ==> i == idx;
      }
      assert indices[..3] == indices;
    }

    method MayContain(hash: u64) returns (r: bool)
      requires Valid()
      ensures r <==> Positions(hash) <= Bits()
    {
      var indices := BitIndices(hash);
      for k := 0 to 3
        invariant forall j :: 0 <= j < k ==> Has(indices[j])
      {
        var idx := indices[k];
        if idx % 64 !in words[idx / 64] {
          assert idx in Positions(hash) && idx !in Bits();
          return false;
        }
      }
      r := true;
    }

    method Clear()
      requires Valid()
      modifies words
      ensures Bits() == {}
    {
      for k := 0 to words.Length
        invariant forall j :: 0 <= j < k ==> words[j] == {}
      {
        words[k] := {};
      }
    }
  }

  ghost function Positions(hash: u64): set<Index> {
    set i | i in BitIndices(hash)
  }

  // ---------------------------------------------------------------- read-write sets

  datatype ConflictType = ReadWrite | WriteRead

  datatype RWConflict = RWConflict(fromTxn: nat, toTxn: nat, conflictType: ConflictType)

  datatype ReadWriteSet = ReadWriteSet(
    readKeys: set<u64>,
    writeKeys: set<u64>,
    readRanges: seq<KeyRange>,
    inbound: seq<RWConflict>,
    outbound: seq<RWConflict>)
  {
    predicate HasDangerousStructure() {
      && inbound != [] && outbound != []
      && forall i, j :: 0 <= i < |inbound| && 0 <= j < |outbound| ==> inbound[i].fromTxn != outbound[j].toTxn
    }

    function Abstract(): Active {
      Active(readKeys, writeKeys, readRanges, inbound != [])
    }
  }

  const NewReadWriteSet := ReadWriteSet({}, {}, [], [], [])

  datatype SSIConflict =
    | WriteSkew(conflictingTs: nat)
    | PhantomRead(conflictingTs: nat)
    | DangerousStructure(inboundFrom: nat, outboundTo: nat)
    | TxnNotFound

  // ---------------------------------------------------------------- the inverted index

  datatype WriteIndexEntry = WriteIndexEntry(commitTs: nat, startTs: nat)

  type WriteIndex = map<u64, seq<WriteIndexEntry>>

  /** `e` stands under `h` because its transaction wrote `h`. */
  predicate Listed(e: WriteIndexEntry, h: u64, committed: map<nat, CommittedTxn>) {
    e.commitTs in committed && h in committed[e.commitTs].writeSet && e.startTs == committed[e.commitTs].startTs
  }

  predicate NoRepeats(entries: seq<WriteIndexEntry>) {
    forall i, j :: 0 <= i < j < |entries| ==> entries[i].commitTs != entries[j].commitTs
  }

  /** The index holds, under each hash, each retained writer of it once, and nothing else. */
  predicate IsIndex(index: WriteIndex, committed: map<nat, CommittedTxn>) {
    && (forall h :: h in index ==> index[h] != [] && NoRepeats(index[h]))
    && (forall h, i :: h in index && 0 <= i < |index[h]| ==> Listed(index[h][i], h, committed))
    && (forall ts, h :: ts in committed && h in committed[ts].writeSet ==>
          h in index && WriteIndexEntry(ts, committed[ts].startTs) in index[h])
  }

  function EntriesOf(index: WriteIndex, h: u64): seq<WriteIndexEntry> {
    if h in index then index[h] else []
  }

  /** `entry` pushed under every hash of `hashes`. */
  function Pushed(index: WriteIndex, hashes: set<u64>, entry: WriteIndexEntry): WriteIndex {
    map h | h in index.Keys + hashes :: if h in hashes then EntriesOf(index, h) + [entry] else index[h]
  }

  lemma PushedIsIndex(index: WriteIndex, committed: map<nat, CommittedTxn>, ts: nat, c: CommittedTxn)
    requires IsIndex(index, committed) && ts !in committed
    ensures IsIndex(Pushed(index, c.writeSet, WriteIndexEntry(ts, c.startTs)), committed[ts := c])
  {
    hide Listed, NoRepeats;
    var entry := WriteIndexEntry(ts, c.startTs);
    var index', committed' := Pushed(index, c.writeSet, entry), committed[ts := c];
    forall h | h in index'
      ensures index'[h] != [] && NoRepeats(index'[h])
      ensures forall i :: 0 <= i < |index'[h]| ==> Listed(index'[h][i], h, committed')
    {
      PushedEntries(index, committed, ts, c, h);
    }
    forall t, h | t in committed' && h in committed'[t].writeSet
      ensures h in index' && WriteIndexEntry(t, committed'[t].startTs) in index'[h]
    {
      if t == ts {
        assert index'[h][|EntriesOf(index, h)|] == entry;
      }
    }
  }

  lemma PushedEntries(index: WriteIndex, committed: map<nat, CommittedTxn>, ts: nat, c: CommittedTxn, h: u64)
    requires IsIndex(index, committed) && ts !in committed
    requires h in Pushed(index, c.writeSet, WriteIndexEntry(ts, c.startTs))
    ensures var es := Pushed(index, c.writeSet, WriteIndexEntry(ts, c.startTs))[h];
            es != [] && NoRepeats(es) && forall i :: 0 <= i < |es| ==> Listed(es[i], h, committed[ts := c])
  {
    var es := EntriesOf(index, h);
    assert forall i :: 0 <= i < |es| ==> Listed(es[i], h, committed);
    assert forall i :: 0 <= i < |es| ==> Listed(es[i], h, committed[ts := c]);
    hide IsIndex;
  }

  /** `Vec::retain` of the commits from `w` on. */
  function KeepFrom(entries: seq<WriteIndexEntry>, w: nat): (r: seq<WriteIndexEntry>)
    ensures forall e :: e in r <==> e in entries && e.commitTs >= w
  {
    if entries == [] then []
    else
      var rest := KeepFrom(entries[..|entries| - 1], w);
      if entries[|entries| - 1].commitTs >= w then rest + [entries[|entries| - 1]] else rest
  }

  lemma {:induction false} KeepFromNoRepeats(entries: seq<WriteIndexEntry>, w: nat)
    requires NoRepeats(entries)
    ensures NoRepeats(KeepFrom(entries, w))
  {
    if entries != [] {
      var init := entries[..|entries| - 1];
      KeepFromNoRepeats(init, w);
      assert forall e :: e in KeepFrom(init, w) ==> e in init;
    }
  }

  function Retained(index: WriteIndex, w: nat): WriteIndex {
    map h | h in index && KeepFrom(index[h], w) != [] :: KeepFrom(index[h], w)
  }

  lemma RetainedIsIndex(index: WriteIndex, committed: map<nat, CommittedTxn>, w: nat)
    requires IsIndex(index, committed)
    ensures IsIndex(Retained(index, w), map ts | ts in committed && ts >= w :: committed[ts])
  {
    var index', committed' := Retained(index, w), map ts | ts in committed && ts >= w :: committed[ts];
    forall h | h in index' ensures index'[h] != [] && NoRepeats(index'[h]) {
      KeepFromNoRepeats(index[h], w);
    }
    forall h, i | h in index' && 0 <= i < |index'[h]| ensures Listed(index'[h][i], h, committed') {
      var e := index'[h][i];
      assert e in KeepFrom(index[h], w);
      var k :| 0 <= k < |index[h]| && index[h][k] == e;
    }
  }

  // ---------------------------------------------------------------- the manager

  const MAX_RECENTLY_COMMITTED: nat := 1000

  /** The smallest start timestamp, or `u64::MAX` with nobody open. */
  predicate IsMinStart(m: u64, starts: map<TxnId, u64>) {
    && (forall t :: t in starts ==> m <= starts[t])
    && (m == U64_MAX || exists t :: t in starts && starts[t] == m)
  }

  function WritersIn(active: map<TxnId, ReadWriteSet>): set<TxnId> {
    set t | t in active && active[t].writeKeys != {}
  }

  function AbstractAll(active: map<TxnId, ReadWriteSet>): map<TxnId, Active> {
    map t | t in active :: active[t].Abstract()
  }

  /** Every write hash still in use was recorded. */
  predicate WritesRecorded(active: map<TxnId, ReadWriteSet>, committed: map<nat, CommittedTxn>, recorded: set<u64>) {
    && (forall t :: t in active ==> active[t].writeKeys <= recorded)
    && (forall ts :: ts in committed ==> committed[ts].writeSet <= recorded)
  }

  lemma MoreRecorded(
    active: map<TxnId, ReadWriteSet>, committed: map<nat, CommittedTxn>, recorded: set<u64>,
    t: TxnId, rw: ReadWriteSet, more: set<u64>)
    requires WritesRecorded(active, committed, recorded) && rw.writeKeys <= recorded + more
    ensures WritesRecorded(active[t := rw], committed, recorded + more)
  {
  }

  lemma SameRecorded(
    active: map<TxnId, ReadWriteSet>, committed: map<nat, CommittedTxn>, recorded: set<u64>,
    t: TxnId, rw: ReadWriteSet)
    requires WritesRecorded(active, committed, recorded)
    requires rw.writeKeys == if t in active then active[t].writeKeys else {}
    ensures WritesRecorded(active[t := rw], committed, recorded)
  {
  }

  lemma RecordedWrites(active: map<TxnId, ReadWriteSet>, committed: map<nat, CommittedTxn>, recorded: set<u64>,
                       t: TxnId)
    requires WritesRecorded(active, committed, recorded)
    ensures t in active ==> active[t].writeKeys <= recorded
  {
  }

  lemma FewerRecorded(active: map<TxnId, ReadWriteSet>, committed: map<nat, CommittedTxn>, recorded: set<u64>, t: TxnId)
    requires WritesRecorded(active, committed, recorded)
    ensures WritesRecorded(active - {t}, committed, recorded)
  {
  }

  lemma AbstractUpdate(active: map<TxnId, ReadWriteSet>, t: TxnId, rw: ReadWriteSet)
    ensures AbstractAll(active[t := rw]) == AbstractAll(active)[t := rw.Abstract()]
    ensures WritersIn(active[t := rw]) ==
            if rw.writeKeys != {} then WritersIn(active) + {t} else WritersIn(active) - {t}
    ensures t in WritersIn(active) <==> t in active && active[t].writeKeys != {}
  {
  }

  /** One more writer exactly when the transaction had not written before. */
  lemma WriterCount(active: map<TxnId, ReadWriteSet>, t: TxnId, rw: ReadWriteSet)
    requires t in active ==> active[t].writeKeys <= rw.writeKeys
    ensures |WritersIn(active[t := rw])| ==
            |WritersIn(active)| + if rw.writeKeys != {} && (t in active ==> active[t].writeKeys == {}) then 1 else 0
  {
    hide WritersIn, AbstractAll;
    AbstractUpdate(active, t, rw);
    var before, after := WritersIn(active), WritersIn(active[t := rw]);
    if rw.writeKeys == {} {
      assert after == before;
    } else if t in before {
      assert after == before;
    }
  }

  /** What one more written hash of a transaction does to the views of the open ones. */
  lemma OneMoreWrite(active: map<TxnId, ReadWriteSet>, committed: map<nat, CommittedTxn>, recorded: set<u64>,
                     t: TxnId, h: u64)
    requires t in active && WritesRecorded(active, committed, recorded)
    ensures var rw := active[t];
            var active' := active[t := rw.(writeKeys := rw.writeKeys + {h})];
            && active'.Keys == active.Keys && t in AbstractAll(active)
            && AbstractAll(active') ==
               AbstractAll(active)[t := AbstractAll(active)[t].(writeKeys := rw.writeKeys + {h})]
            && AbstractAll(active)[t].writeKeys == rw.writeKeys
            && |WritersIn(active')| == |WritersIn(active)| + (if rw.writeKeys == {} then 1 else 0)
            && WritesRecorded(active', committed, recorded + {h})
  {
    hide AbstractAll, WritersIn, WritesRecorded;
    var rw := active[t];
    var rw' := rw.(writeKeys := rw.writeKeys + {h});
    AbstractUpdate(active, t, rw');
    AbstractAt(active, t);
    RecordedWrites(active, committed, recorded, t);
    WriterCount(active, t, rw');
    MoreRecorded(active, committed, recorded, t, rw', {h});
  }

  lemma AbstractAt(active: map<TxnId, ReadWriteSet>, t: TxnId)
    requires t in active
    ensures t in AbstractAll(active) && AbstractAll(active)[t] == active[t].Abstract()
  {
  }

  /** A writer less if a writer is replaced. */
  lemma WriterReplaced(active: map<TxnId, ReadWriteSet>, t: TxnId)
    ensures |WritersIn(active[t := NewReadWriteSet])| == |WritersIn(active)| <==>
            (t in active ==> active[t].writeKeys == {})
  {
    AbstractUpdate(active, t, NewReadWriteSet);
    hide WritersIn, AbstractAll;
    if t !in WritersIn(active) {
      assert WritersIn(active) - {t} == WritersIn(active);
    }
  }

  lemma NewRecorded(active: map<TxnId, ReadWriteSet>, committed: map<nat, CommittedTxn>, recorded: set<u64>, t: TxnId)
    requires WritesRecorded(active, committed, recorded)
    ensures WritesRecorded(active[t := NewReadWriteSet], committed, recorded)
  {
  }

  lemma AbstractRemove(active: map<TxnId, ReadWriteSet>, t: TxnId)
    ensures AbstractAll(active - {t}) == AbstractAll(active) - {t}
    ensures WritersIn(active - {t}) == WritersIn(active) - {t}
    ensures t in WritersIn(active) <==> t in active && active[t].writeKeys != {}
  {
  }

  /** Retained committers whose read hashes the transaction wrote, between snapshot and commit. */
  function OutboundTo(committed: map<nat, CommittedTxn>, rw: ReadWriteSet, readTs: nat, commitTs: nat): set<nat> {
    set ts | ts in committed && readTs < ts < commitTs && rw.writeKeys * committed[ts].readSet != {}
  }

  function InboundFrom(committed: map<nat, CommittedTxn>, readHashes: set<u64>, readTs: nat, commitTs: nat): set<nat> {
    set ts | ts in committed && WriterConflicts(committed[ts], ts, readHashes, readTs, commitTs)
  }

  function Sources(conflicts: seq<RWConflict>): set<nat> {
    set i | 0 <= i < |conflicts| :: conflicts[i].fromTxn
  }

  function Targets(conflicts: seq<RWConflict>): set<nat> {
    set i | 0 <= i < |conflicts| :: conflicts[i].toTxn
  }

  lemma SourcesGrow(conflicts: seq<RWConflict>, c: RWConflict)
    ensures Sources(conflicts + [c]) == Sources(conflicts) + {c.fromTxn}
    ensures Targets(conflicts + [c]) == Targets(conflicts) + {c.toTxn}
  {
    var longer := conflicts + [c];
    assert longer[|conflicts|] == c;
    assert forall i :: 0 <= i < |conflicts| ==> longer[i] == conflicts[i];
    forall x | x in Sources(conflicts) ensures x in Sources(longer) {
      var i :| 0 <= i < |conflicts| && conflicts[i].fromTxn == x;
      assert longer[i].fromTxn == x;
    }
    forall x | x in Targets(conflicts) ensures x in Targets(longer) {
      var i :| 0 <= i < |conflicts| && conflicts[i].toTxn == x;
      assert longer[i].toTxn == x;
    }
  }

  predicate InWindow(e: WriteIndexEntry, readTs: nat, commitTs: nat) {
    e.commitTs > readTs && e.startTs < commitTs
  }

  /** The conflicting commits among some entries of the index. */
  function EntrySources(entries: seq<WriteIndexEntry>, readTs: nat, commitTs: nat): set<nat> {
    set i | 0 <= i < |entries| && InWindow(entries[i], readTs, commitTs) :: entries[i].commitTs
  }

  lemma EntrySourcesGrow(entries: seq<WriteIndexEntry>, k: nat, readTs: nat, commitTs: nat)
    requires k < |entries|
    ensures EntrySources(entries[..k + 1], readTs, commitTs) ==
            EntrySources(entries[..k], readTs, commitTs)
            + if InWindow(entries[k], readTs, commitTs) then {entries[k].commitTs} else {}
  {
    hide InWindow;
    var longer := entries[..k + 1];
    assert forall i :: 0 <= i < k ==> longer[i] == entries[..k][i];
    assert longer[k] == entries[k];
    forall x | x in EntrySources(entries[..k], readTs, commitTs) ensures x in EntrySources(longer, readTs, commitTs) {
      var i :| 0 <= i < k && InWindow(entries[..k][i], readTs, commitTs) && entries[..k][i].commitTs == x;
      assert longer[i].commitTs == x;
    }
  }

  /** Looking a hash up in the index finds every conflicting writer of it. */
  lemma IndexFindsWriters(index: WriteIndex, committed: map<nat, CommittedTxn>, h: u64, readTs: nat, commitTs: nat)
    requires IsIndex(index, committed)
    ensures EntrySources(EntriesOf(index, h), readTs, commitTs) == InboundFrom(committed, {h}, readTs, commitTs)
  {
    var entries := EntriesOf(index, h);
    forall x | x in EntrySources(entries, readTs, commitTs) ensures x in InboundFrom(committed, {h}, readTs, commitTs) {
      var i :| 0 <= i < |entries| && InWindow(entries[i], readTs, commitTs) && entries[i].commitTs == x;
      assert Listed(index[h][i], h, committed);
      assert h in committed[x].writeSet * {h};
    }
    forall x | x in InboundFrom(committed, {h}, readTs, commitTs) ensures x in EntrySources(entries, readTs, commitTs) {
      assert h in committed[x].writeSet;
      var i :| 0 <= i < |entries| && entries[i] == WriteIndexEntry(x, committed[x].startTs);
    }
  }

  lemma InboundFromUnion(committed: map<nat, CommittedTxn>, a: set<u64>, h: u64, readTs: nat, commitTs: nat)
    ensures InboundFrom(committed, a + {h}, readTs, commitTs) ==
            InboundFrom(committed, a, readTs, commitTs) + InboundFrom(committed, {h}, readTs, commitTs)
  {
    forall ts | ts in committed
      ensures committed[ts].writeSet * (a + {h}) == committed[ts].writeSet * a + committed[ts].writeSet * {h}
    {
    }
  }

  /** Committers already looked at, when `rest` are still to come. */
  function Seen(committed: map<nat, CommittedTxn>, rest: set<nat>): map<nat, CommittedTxn> {
    map ts | ts in committed && ts !in rest :: committed[ts]
  }

  lemma SeenOneMore(committed: map<nat, CommittedTxn>, rest: set<nat>, ts: nat, rw: ReadWriteSet, readTs: nat,
                    commitTs: nat)
    requires ts in rest && rest <= committed.Keys
    ensures OutboundTo(Seen(committed, rest - {ts}), rw, readTs, commitTs) ==
            OutboundTo(Seen(committed, rest), rw, readTs, commitTs)
            + if readTs < ts < commitTs && rw.writeKeys * committed[ts].readSet != {} then {ts} else {}
  {
  }

  /** The most recent commits that are remembered. */
  function LastOf(recent: seq<(TxnId, nat)>): seq<(TxnId, nat)> {
    if |recent| > MAX_RECENTLY_COMMITTED then recent[|recent| - MAX_RECENTLY_COMMITTED..] else recent
  }

  class SSIManager {
    const hash: Hasher
    const writeBloom: BloomFilter
    var committedTxns: map<nat, CommittedTxn>
    var activeTxns: map<TxnId, ReadWriteSet>
    var activeStartTs: map<TxnId, u64>
    var readOnlyTxns: set<TxnId>
    var activeWriters: nat
    var writeIndex: WriteIndex
    var watermark: nat
    var safeSnapshot: u64
    var recentlyCommitted: seq<(TxnId, nat)>
    ghost var recorded: set<u64>
    ghost var begun: bool

    constructor (hash: Hasher)
      ensures Valid() && fresh(writeBloom) && fresh(writeBloom.words) && this.hash == hash
      ensures View() == Ssi(map[], map[], map[], {}, 0) && !begun && safeSnapshot == 0
    {
      this.hash := hash;
      writeBloom := new BloomFilter();
      committedTxns, activeTxns, activeStartTs, readOnlyTxns := map[], map[], map[], {};
      activeWriters, writeIndex, watermark, safeSnapshot, recentlyCommitted := 0, map[], 0, 0, [];
      recorded, begun := {}, false;
    }

    ghost function View(): Ssi
      reads this
    {
      Ssi(committedTxns, AbstractAll(activeTxns), activeStartTs, readOnlyTxns, watermark)
    }

    /** Everything recorded passes the filter. */
    ghost predicate FilterHolds()
      reads this`recorded, writeBloom, writeBloom.words
    {
      writeBloom.Valid() && forall h :: h in recorded ==> Positions(h) <= writeBloom.Bits()
    }

    /** What every method keeps: the index, the writer count, the filter and the safe snapshot are right. */
    ghost predicate Valid()
      reads this, writeBloom, writeBloom.words
    {
      ValidButCount() && activeWriters == |WritersIn(activeTxns)|
    }

    ghost predicate ValidButCount()
      reads this, writeBloom, writeBloom.words
    {
      && IsIndex(writeIndex, committedTxns)
      && WritesRecorded(activeTxns, committedTxns, recorded)
      && FilterHolds()
      && (begun ==> IsMinStart(safeSnapshot, activeStartTs))
      && |recentlyCommitted| <= MAX_RECENTLY_COMMITTED
    }

    method UpdateSafeSnapshot()
      modifies this`safeSnapshot
      ensures IsMinStart(safeSnapshot, activeStartTs)
    {
      var least: u64 := U64_MAX;
      var remaining := activeStartTs.Keys;
      while remaining != {}
        invariant remaining <= activeStartTs.Keys
        invariant least == U64_MAX || exists t :: t in activeStartTs && activeStartTs[t] == least
        invariant forall t :: t in activeStartTs && t !in remaining ==> least <= activeStartTs[t]
        decreases remaining
      {
        var t :| t in remaining;
        if activeStartTs[t] < least {
          least := activeStartTs[t];
        }
        remaining := remaining - {t};
      }
      safeSnapshot := least;
    }

    /** Replaces a read-write set by one with the same writes. */
    method SetAccess(txnId: TxnId, rw: ReadWriteSet)
      requires Valid()
      requires rw.writeKeys == if txnId in activeTxns then activeTxns[txnId].writeKeys else {}
      modifies this`activeTxns
      ensures Valid() && activeTxns == old(activeTxns)[txnId := rw]
      ensures View() == old(View()).(active := old(View()).active[txnId := rw.Abstract()])
    {
      hide IsIndex, IsMinStart, AbstractAll, WritersIn, WritesRecorded, FilterHolds;
      AbstractUpdate(activeTxns, txnId, rw);
      SameRecorded(activeTxns, committedTxns, recorded, txnId, rw);
      WriterCount(activeTxns, txnId, rw);
      activeTxns := activeTxns[txnId := rw];
    }

    /** An open transaction of the same id is replaced; the writer count is then off exactly if it had written. */
    method BeginTxnWithTs(txnId: TxnId, startTs: u64)
      requires Valid()
      modifies this`activeTxns, this`activeStartTs, this`safeSnapshot, this`begun
      ensures ValidButCount() && begun && View() == Begin(old(View()), txnId, startTs)
      ensures Valid() <==> (txnId in old(activeTxns) ==> old(activeTxns)[txnId].writeKeys == {})
      ensures activeTxns == old(activeTxns)[txnId := NewReadWriteSet]
    {
      hide IsIndex, AbstractAll, WritersIn, IsMinStart, WritesRecorded, FilterHolds;
      AbstractUpdate(activeTxns, txnId, NewReadWriteSet);
      NewRecorded(activeTxns, committedTxns, recorded, txnId);
      WriterReplaced(activeTxns, txnId);
      activeTxns := activeTxns[txnId := NewReadWriteSet];
      activeStartTs := activeStartTs[txnId := startTs];
      begun := true;
      UpdateSafeSnapshot();
    }

    method BeginReadOnlyTxn(txnId: TxnId, startTs: u64)
      requires Valid()
      modifies this`activeStartTs, this`readOnlyTxns, this`safeSnapshot, this`begun
      ensures Valid() && begun && View() == BeginReadOnly(old(View()), txnId, startTs)
    {
      hide IsIndex, AbstractAll, WritersIn, IsMinStart, WritesRecorded, FilterHolds;
      activeStartTs := activeStartTs[txnId := startTs];
      readOnlyTxns := readOnlyTxns + {txnId};
      begun := true;
      UpdateSafeSnapshot();
    }

    method RecordReadOf(txnId: TxnId, key: bytes)
      requires Valid()
      modifies this`activeTxns
      ensures Valid() && View() == RecordRead(hash, old(View()), txnId, key)
      ensures activeTxns ==
              if txnId !in old(activeTxns) then old(activeTxns)
              else old(activeTxns)[txnId := old(activeTxns)[txnId].(
                     readKeys := old(activeTxns)[txnId].readKeys + {hash(key)})]
    {
      hide IsIndex, IsMinStart, WritersIn, WritesRecorded, FilterHolds;
      if txnId in activeTxns {
        var rw := activeTxns[txnId];
        SetAccess(txnId, rw.(readKeys := rw.readKeys + {hash(key)}));
      }
    }

    method RecordRange(txnId: TxnId, start: Bound, end: Bound)
      requires Valid()
      modifies this`activeTxns
      ensures Valid() && View() == RecordRangeRead(old(View()), txnId, start, end)
      ensures activeTxns ==
              if txnId !in old(activeTxns) then old(activeTxns)
              else old(activeTxns)[txnId := old(activeTxns)[txnId].(
                     readRanges := old(activeTxns)[txnId].readRanges + [(start, end)])]
    {
      hide IsIndex, IsMinStart, WritersIn, WritesRecorded, FilterHolds;
      if txnId in activeTxns {
        var rw := activeTxns[txnId];
        SetAccess(txnId, rw.(readRanges := rw.readRanges + [(start, end)]));
      }
    }

    /** Adds the hash to the write set of an open transaction, and counts a first write. */
    method AddWrite(txnId: TxnId, h: u64)
      requires txnId in activeTxns && activeWriters == |WritersIn(activeTxns)|
      requires WritesRecorded(activeTxns, committedTxns, recorded)
      modifies this`activeTxns, this`activeWriters
      ensures activeTxns.Keys == old(activeTxns.Keys)
      ensures View().active == old(View()).active[txnId :=
                old(View()).active[txnId].(writeKeys := old(View()).active[txnId].writeKeys + {h})]
      ensures activeWriters == |WritersIn(activeTxns)|
      ensures WritesRecorded(activeTxns, committedTxns, recorded + {h})
      ensures activeTxns ==
              old(activeTxns)[txnId := old(activeTxns)[txnId].(writeKeys := old(activeTxns)[txnId].writeKeys + {h})]
    {
      hide AbstractAll, WritersIn, WritesRecorded;
      OneMoreWrite(activeTxns, committedTxns, recorded, txnId, h);
      var rw := activeTxns[txnId];
      activeTxns := activeTxns[txnId := rw.(writeKeys := rw.writeKeys + {h})];
      if rw.writeKeys == {} {
        activeWriters := activeWriters + 1;
      }
    }

    method RecordWriteOf(txnId: TxnId, key: bytes)
      requires Valid()
      modifies this`activeTxns, this`activeWriters, this`recorded, writeBloom.words
      ensures Valid() && View() == RecordWrite(hash, old(View()), txnId, key)
      ensures recorded == if txnId in old(activeTxns) then old(recorded) + {hash(key)} else old(recorded)
      ensures activeTxns ==
              if txnId !in old(activeTxns) then old(activeTxns)
              else old(activeTxns)[txnId := old(activeTxns)[txnId].(
                     writeKeys := old(activeTxns)[txnId].writeKeys + {hash(key)})]
    {
      hide IsIndex, IsMinStart, WritersIn, FilterHolds, WritesRecorded;
      if txnId in activeTxns {
        AddWrite(txnId, hash(key));
        Remember(hash(key));
      }
    }

    /** Enters a hash in the filter. */
    method Remember(h: u64)
      requires FilterHolds()
      modifies this`recorded, writeBloom.words
      ensures FilterHolds() && recorded == old(recorded) + {h}
    {
      hide BloomFilter.Bits;
      recorded := recorded + {h};
      writeBloom.Insert(h);
    }

    method Remove(txnId: TxnId)
      requires Valid()
      modifies this`activeTxns, this`activeWriters
      ensures Valid() && activeTxns == old(activeTxns) - {txnId}
    {
      hide IsIndex, IsMinStart, AbstractAll, WritersIn, WritesRecorded, FilterHolds;
      AbstractRemove(activeTxns, txnId);
      FewerRecorded(activeTxns, committedTxns, recorded, txnId);
      if txnId in activeTxns {
        var rw := activeTxns[txnId];
        activeTxns := activeTxns - {txnId};
        if rw.writeKeys != {} {
          activeWriters := activeWriters - 1;
        }
      } else {
        assert activeTxns - {txnId} == activeTxns;
      }
    }

    method AbortTxn(txnId: TxnId)
      requires Valid()
      modifies this`activeTxns, this`activeWriters, this`activeStartTs, this`readOnlyTxns, this`safeSnapshot
      ensures Valid() && View() == Abort(old(View()), txnId)
      ensures activeTxns == old(activeTxns) - {txnId}
    {
      hide IsIndex, IsMinStart, AbstractAll, WritersIn, WritesRecorded, FilterHolds;
      AbstractRemove(activeTxns, txnId);
      hide Valid;
      Remove(txnId);
      ForgetStart(txnId);
    }

    method ForgetStart(txnId: TxnId)
      requires Valid()
      modifies this`activeStartTs, this`readOnlyTxns, this`safeSnapshot
      ensures Valid() && View() == CommitReadOnly(old(View()), txnId)
    {
      hide IsIndex, IsMinStart, AbstractAll, WritersIn, WritesRecorded, FilterHolds;
      activeStartTs := activeStartTs - {txnId};
      readOnlyTxns := readOnlyTxns - {txnId};
      UpdateSafeSnapshot();
    }

    method CommitReadOnlyTxn(txnId: TxnId)
      requires Valid()
      modifies this`activeStartTs, this`readOnlyTxns, this`safeSnapshot
      ensures Valid() && View() == CommitReadOnly(old(View()), txnId)
    {
      ForgetStart(txnId);
    }

    /** The filter never hides a recorded write. */
    method MayHaveWriteConflict(readHashes: set<u64>) returns (r: bool)
      requires Valid()
      ensures readHashes * recorded != {} ==> r
      ensures r <==> exists h :: h in readHashes && Positions(h) <= writeBloom.Bits()
    {
      var remaining := readHashes;
      while remaining != {}
        invariant remaining <= readHashes
        invariant forall h :: h in readHashes && h !in remaining ==> !(Positions(h) <= writeBloom.Bits())
        decreases remaining
      {
        var h :| h in remaining;
        var hit := writeBloom.MayContain(h);
        if hit {
          return true;
        }
        remaining := remaining - {h};
      }
      r := false;
    }

    /** The first loop of validation: conflicting writers of what was read, through the index. */
    method FindInbound(txnId: TxnId, readHashes: set<u64>, readTs: nat, commitTs: nat) returns (found: seq<RWConflict>)
      requires IsIndex(writeIndex, committedTxns)
      ensures Sources(found) == InboundFrom(committedTxns, readHashes, readTs, commitTs)
    {
      hide IsIndex, InWindow;
      found := [];
      var remaining := readHashes;
      while remaining != {}
        invariant remaining <= readHashes
        invariant Sources(found) == InboundFrom(committedTxns, readHashes - remaining, readTs, commitTs)
        decreases remaining
      {
        var h :| h in remaining;
        var under := FindInboundUnder(txnId, h, found, readTs, commitTs);
        InboundFromUnion(committedTxns, readHashes - remaining, h, readTs, commitTs);
        assert readHashes - remaining + {h} == readHashes - (remaining - {h});
        found := under;
        remaining := remaining - {h};
      }
      assert readHashes - {} == readHashes;
    }

    method FindInboundUnder(txnId: TxnId, h: u64, sofar: seq<RWConflict>, readTs: nat, commitTs: nat)
      returns (found: seq<RWConflict>)
      requires IsIndex(writeIndex, committedTxns)
      ensures Sources(found) == Sources(sofar) + InboundFrom(committedTxns, {h}, readTs, commitTs)
    {
      hide IsIndex, InboundFrom, Sources, EntrySources;
      found := sofar;
      IndexFindsWriters(writeIndex, committedTxns, h, readTs, commitTs);
      assert EntrySources([], readTs, commitTs) == {} by {
        NoEntriesNoSources(readTs, commitTs);
      }
      if h in writeIndex {
        var writers := writeIndex[h];
        for k := 0 to |writers|
          invariant Sources(found) == Sources(sofar) + EntrySources(writers[..k], readTs, commitTs)
        {
          EntrySourcesGrow(writers, k, readTs, commitTs);
          if writers[k].commitTs > readTs && writers[k].startTs < commitTs {
            SourcesGrow(found, RWConflict(writers[k].commitTs, txnId, ReadWrite));
            found := found + [RWConflict(writers[k].commitTs, txnId, ReadWrite)];
          }
        }
        assert writers[..|writers|] == writers;
      }
    }

    method AnyKeyInRanges(keys: seq<bytes>, ranges: seq<KeyRange>) returns (r: bool)
      ensures r <==> exists i :: 0 <= i < |keys| && KeyInRanges(keys[i], ranges)
    {
      for i := 0 to |keys|
        invariant forall j :: 0 <= j < i ==> !KeyInRanges(keys[j], ranges)
      {
        for j := 0 to |ranges|
          invariant forall k :: 0 <= k < j ==> !InRange(keys[i], ranges[k].0, ranges[k].1)
        {
          if InRange(keys[i], ranges[j].0, ranges[j].1) {
            return true;
          }
        }
      }
      r := false;
    }

    /**
     The second loop of validation, in any order of the retained commits: collects the commits whose
     reads were overwritten, and stops at the first listed key inside a range that was read.
     */
    method ScanCommitted(txnId: TxnId, rw: ReadWriteSet, readTs: nat, commitTs: nat)
      returns (rw': ReadWriteSet, phantom: Option<nat>)
      ensures rw' == rw.(outbound := rw'.outbound)
      ensures phantom.Some? ==> phantom.value in committedTxns
                                && PhantomIn(committedTxns[phantom.value], phantom.value, rw.readRanges,
                                             readTs, commitTs)
      ensures phantom.None? ==>
                && (forall ts :: ts in committedTxns ==>
                      !PhantomIn(committedTxns[ts], ts, rw.readRanges, readTs, commitTs))
                && Targets(rw'.outbound) == Targets(rw.outbound) + OutboundTo(committedTxns, rw, readTs, commitTs)
    {
      hide OutboundTo, Targets, Seen, KeyInRanges;
      rw' := rw;
      var remaining := committedTxns.Keys;
      NothingSeen(committedTxns, rw, readTs, commitTs);
      while remaining != {}
        invariant remaining <= committedTxns.Keys
        invariant rw' == rw.(outbound := rw'.outbound)
        invariant Targets(rw'.outbound) ==
                  Targets(rw.outbound) + OutboundTo(Seen(committedTxns, remaining), rw, readTs, commitTs)
        invariant forall ts :: ts in committedTxns && ts !in remaining ==>
                    !PhantomIn(committedTxns[ts], ts, rw.readRanges, readTs, commitTs)
        decreases remaining
      {
        var ts :| ts in remaining;
        SeenOneMore(committedTxns, remaining, ts, rw, readTs, commitTs);
        if readTs < ts < commitTs {
          if rw.writeKeys * committedTxns[ts].readSet != {} {
            SourcesGrow(rw'.outbound, RWConflict(txnId, ts, WriteRead));
            rw' := rw'.(outbound := rw'.outbound + [RWConflict(txnId, ts, WriteRead)]);
          }
          var hit := AnyKeyInRanges(committedTxns[ts].writeKeys, rw.readRanges);
          if hit {
            return rw', Some(ts);
          }
        }
        remaining := remaining - {ts};
      }
      phantom := None;
    }

    method PushWrites(hashes: set<u64>, entry: WriteIndexEntry)
      modifies this`writeIndex
      ensures writeIndex == Pushed(old(writeIndex), hashes, entry)
    {
      var remaining := hashes;
      PushedNothing(writeIndex, entry);
      assert hashes - remaining == {};
      while remaining != {}
        invariant remaining <= hashes
        invariant writeIndex == Pushed(old(writeIndex), hashes - remaining, entry)
        decreases remaining
      {
        var h :| h in remaining;
        PushedOneMore(old(writeIndex), hashes - remaining, h, entry);
        assert hashes - remaining + {h} == hashes - (remaining - {h});
        hide Pushed;
        writeIndex := writeIndex[h := EntriesOf(writeIndex, h) + [entry]];
        remaining := remaining - {h};
      }
      assert hashes - {} == hashes;
    }

    /** How a refusal other than a phantom is reported. */
    static function Refusal(rw: ReadWriteSet): SSIConflict
      requires rw.inbound != []
    {
      if rw.HasDangerousStructure() then DangerousStructure(rw.inbound[0].fromTxn, rw.outbound[0].toTxn)
      else WriteSkew(rw.inbound[0].fromTxn)
    }

    method TrimRecent()
      modifies this`recentlyCommitted
      ensures recentlyCommitted == LastOf(old(recentlyCommitted))
    {
      while |recentlyCommitted| > MAX_RECENTLY_COMMITTED
        invariant LastOf(recentlyCommitted) == LastOf(old(recentlyCommitted))
      {
        recentlyCommitted := recentlyCommitted[1..];
      }
    }

    /** Enters a commit of an open transaction, first in the index, then among the retained commits. */
    method Retain(txnId: TxnId, commitTs: nat, c: CommittedTxn)
      requires Valid() && txnId in activeTxns && commitTs !in committedTxns
      requires c.writeSet == activeTxns[txnId].writeKeys
      modifies this`writeIndex, this`committedTxns
      ensures Valid() && committedTxns == old(committedTxns)[commitTs := c]
    {
      hide IsIndex, IsMinStart, WritersIn, FilterHolds, Pushed, WritesRecorded;
      PushedIsIndex(writeIndex, committedTxns, commitTs, c);
      CommittedRecorded(activeTxns, committedTxns, recorded, txnId, commitTs, c);
      PushWrites(c.writeSet, WriteIndexEntry(commitTs, c.startTs));
      committedTxns := committedTxns[commitTs := c];
    }

    method CloseTxn(txnId: TxnId)
      requires Valid()
      modifies this`activeTxns, this`activeWriters, this`activeStartTs, this`safeSnapshot
      ensures Valid()
      ensures View() == old(View()).(active := old(View()).active - {txnId}, startTs := old(View()).startTs - {txnId})
      ensures activeTxns == old(activeTxns) - {txnId}
    {
      hide IsIndex, IsMinStart, AbstractAll, WritersIn, FilterHolds, WritesRecorded;
      AbstractRemove(activeTxns, txnId);
      Remove(txnId);
      activeStartTs := activeStartTs - {txnId};
      UpdateSafeSnapshot();
    }

    /** The bookkeeping after validation said yes. */
    method Install(txnId: TxnId, readTs: nat, commitTs: nat, keys: seq<bytes>)
      requires Valid() && txnId in activeTxns && commitTs !in committedTxns
      modifies this`activeTxns, this`activeWriters, this`activeStartTs, this`safeSnapshot, this`writeIndex,
               this`committedTxns, this`recentlyCommitted
      ensures Valid()
      ensures var t := old(activeTxns)[txnId];
              View() == old(View()).(
                committed := old(committedTxns)[commitTs :=
                  CommittedTxn(StartOf(old(View()), txnId, readTs), t.readKeys, t.writeKeys, keys)],
                active := old(View()).active - {txnId},
                startTs := old(activeStartTs) - {txnId})
      ensures activeTxns == old(activeTxns) - {txnId}
      ensures recentlyCommitted == LastOf(old(recentlyCommitted) + [(txnId, commitTs)])
    {
      hide IsIndex, IsMinStart, AbstractAll, WritersIn, FilterHolds, WritesRecorded;
      var rw := activeTxns[txnId];
      var startTs := if txnId in activeStartTs then activeStartTs[txnId] else readTs;
      Retain(txnId, commitTs, CommittedTxn(startTs, rw.readKeys, rw.writeKeys, keys));
      recentlyCommitted := recentlyCommitted + [(txnId, commitTs)];
      TrimRecent();
      CloseTxn(txnId);
    }

    /** Validation up to its answer; only the conflict lists of the transaction change. */
    method Check(txnId: TxnId, readTs: nat, commitTs: nat) returns (conflict: Option<SSIConflict>)
      requires Valid() && txnId in activeTxns
      modifies this`activeTxns
      ensures Valid() && activeTxns.Keys == old(activeTxns.Keys)
      ensures forall t :: t in activeTxns && t != txnId ==> activeTxns[t] == old(activeTxns)[t]
      ensures View() == old(View()).(active := old(View()).active[txnId :=
                old(View()).active[txnId].(doomed := Doomed(old(View()), txnId, readTs, commitTs))])
      ensures conflict.None? <==> Accepts(old(View()), txnId, readTs, commitTs)
      ensures activeTxns[txnId].readRanges == old(View()).active[txnId].readRanges
      ensures conflict.Some? ==>
                if Phantom(old(View()), activeTxns[txnId].readRanges, readTs, commitTs) then
                  && conflict.value.PhantomRead? && conflict.value.conflictingTs in committedTxns
                  && PhantomIn(committedTxns[conflict.value.conflictingTs], conflict.value.conflictingTs,
                               activeTxns[txnId].readRanges, readTs, commitTs)
                else
                  activeTxns[txnId].inbound != [] && conflict.value == Refusal(activeTxns[txnId])
      ensures Sources(activeTxns[txnId].inbound) ==
              Sources(old(activeTxns)[txnId].inbound)
              + InboundFrom(committedTxns, activeTxns[txnId].readKeys, readTs, commitTs)
      ensures !Phantom(old(View()), activeTxns[txnId].readRanges, readTs, commitTs) ==>
                Targets(activeTxns[txnId].outbound) ==
                Targets(old(activeTxns)[txnId].outbound)
                    + OutboundTo(committedTxns, activeTxns[txnId], readTs, commitTs)
    {
      hide IsIndex, IsMinStart, WritersIn, WritesRecorded, FilterHolds, Sources, Targets, InboundFrom, PhantomIn;
      var rw := activeTxns[txnId];
      var found := FindInbound(txnId, rw.readKeys, readTs, commitTs);
      FoundIsConflict(View(), found, rw.readKeys, readTs, commitTs);
      SourcesConcat(rw.inbound, found);
      rw := rw.(inbound := rw.inbound + found);
      var phantom: Option<nat>;
      rw, phantom := ScanCommitted(txnId, rw, readTs, commitTs);
      hide ReadConflict;
      SetAccess(txnId, rw);
      if phantom.Some? {
        conflict := Some(PhantomRead(phantom.value));
      } else if rw.inbound != [] {
        conflict := Some(Refusal(rw));
      } else {
        conflict := None;
      }
      SameOutbound(committedTxns, old(activeTxns)[txnId], rw, readTs, commitTs);
      hide OutboundTo;
    }

    method ValidateAndCommitWithKeys(txnId: TxnId, readTs: nat, commitTs: nat, keys: seq<bytes>)
      returns (conflict: Option<SSIConflict>)
      requires Valid() && commitTs !in committedTxns
      modifies this`activeTxns, this`activeWriters, this`activeStartTs, this`safeSnapshot, this`writeIndex,
               this`committedTxns, this`recentlyCommitted
      ensures Valid()
      ensures View() == Validate(old(View()), txnId, readTs, commitTs, keys).0
      ensures conflict.None? <==> Validate(old(View()), txnId, readTs, commitTs, keys).1
      ensures conflict == Some(TxnNotFound) <==> txnId !in old(activeTxns)
      ensures conflict.Some? && txnId in old(activeTxns) ==>
                && txnId in activeTxns && activeTxns[txnId].readRanges == old(View()).active[txnId].readRanges
                && if Phantom(old(View()), activeTxns[txnId].readRanges, readTs, commitTs) then
                  && conflict.value.PhantomRead? && conflict.value.conflictingTs in committedTxns
                  && PhantomIn(committedTxns[conflict.value.conflictingTs], conflict.value.conflictingTs,
                               activeTxns[txnId].readRanges, readTs, commitTs)
                else
                  activeTxns[txnId].inbound != [] && conflict.value == Refusal(activeTxns[txnId])
      ensures if conflict.None? then activeTxns == old(activeTxns) - {txnId}
              else activeTxns.Keys == old(activeTxns.Keys) && forall t :: t in activeTxns && t != txnId ==>
                  activeTxns[t] == old(activeTxns)[t]
      ensures recentlyCommitted ==
              if conflict.None? then LastOf(old(recentlyCommitted) + [(txnId, commitTs)]) else old(recentlyCommitted)
    {
      hide IsIndex, IsMinStart, WritersIn, WritesRecorded, FilterHolds, Sources, Targets, InboundFrom, PhantomIn;
      hide OutboundTo, Phantom, ReadConflict;
      if txnId !in activeTxns {
        return Some(TxnNotFound);
      }
      conflict := Check(txnId, readTs, commitTs);
      if conflict.None? {
        assert View().active == old(View().active);
        Install(txnId, readTs, commitTs, keys);
      }
    }

    method RetainFrom(entries: seq<WriteIndexEntry>, w: nat) returns (kept: seq<WriteIndexEntry>)
      ensures kept == KeepFrom(entries, w)
    {
      kept := [];
      for k := 0 to |entries|
        invariant kept == KeepFrom(entries[..k], w)
      {
        assert entries[..k + 1][..k] == entries[..k];
        if entries[k].commitTs >= w {
          kept := kept + [entries[k]];
        }
      }
      assert entries[..|entries|] == entries;
    }

    method RetainIndex(w: nat)
      modifies this`writeIndex
      ensures writeIndex == Retained(old(writeIndex), w)
    {
      var kept: WriteIndex := map[];
      var remaining := writeIndex.Keys;
      while remaining != {}
        invariant remaining <= writeIndex.Keys && writeIndex == old(writeIndex)
        invariant forall h :: h in kept <==> h in writeIndex && h !in remaining && KeepFrom(writeIndex[h], w) != []
        invariant forall h :: h in kept ==> kept[h] == KeepFrom(writeIndex[h], w)
        decreases remaining
      {
        var h :| h in remaining;
        var entries := RetainFrom(writeIndex[h], w);
        if entries != [] {
          kept := kept[h := entries];
        }
        remaining := remaining - {h};
      }
      writeIndex := kept;
    }

    method AdvanceWatermarkTo(w: nat)
      requires Valid()
      modifies this`watermark, this`committedTxns, this`writeIndex
      ensures Valid() && View() == AdvanceWatermark(old(View()), w)
    {
      hide IsIndex, IsMinStart, AbstractAll, WritersIn, FilterHolds, Retained, KeepFrom;
      if w > watermark {
        watermark := w;
        RetainedIsIndex(writeIndex, committedTxns, w);
        committedTxns := map ts | ts in committedTxns && ts >= w :: committedTxns[ts];
        RetainIndex(w);
      }
    }
  }

  lemma CommittedRecorded(
    active: map<TxnId, ReadWriteSet>, committed: map<nat, CommittedTxn>, recorded: set<u64>,
    t: TxnId, ts: nat, c: CommittedTxn)
    requires WritesRecorded(active, committed, recorded) && t in active && c.writeSet == active[t].writeKeys
    ensures WritesRecorded(active, committed[ts := c], recorded)
  {
  }

  lemma FoundIsConflict(s: Ssi, found: seq<RWConflict>, readHashes: set<u64>, readTs: nat, commitTs: nat)
    requires Sources(found) == InboundFrom(s.committed, readHashes, readTs, commitTs)
    ensures found != [] <==> ReadConflict(s, readHashes, readTs, commitTs)
  {
    hide WriterConflicts;
    if found != [] {
      assert found[0].fromTxn in Sources(found);
    }
    if ts :| ts in s.committed && WriterConflicts(s.committed[ts], ts, readHashes, readTs, commitTs) {
      assert ts in Sources(found);
    }
  }

  lemma SourcesConcat(a: seq<RWConflict>, b: seq<RWConflict>)
    ensures Sources(a + b) == Sources(a) + Sources(b)
  {
    forall x | x in Sources(a) + Sources(b) ensures x in Sources(a + b) {
      if x in Sources(a) {
        var i :| 0 <= i < |a| && a[i].fromTxn == x;
        assert (a + b)[i].fromTxn == x;
      } else {
        var i :| 0 <= i < |b| && b[i].fromTxn == x;
        assert (a + b)[|a| + i].fromTxn == x;
      }
    }
  }

  lemma SameOutbound(committed: map<nat, CommittedTxn>, a: ReadWriteSet, b: ReadWriteSet, readTs: nat, commitTs: nat)
    requires a.writeKeys == b.writeKeys
    ensures OutboundTo(committed, a, readTs, commitTs) == OutboundTo(committed, b, readTs, commitTs)
  {
  }

  lemma NothingSeen(committed: map<nat, CommittedTxn>, rw: ReadWriteSet, readTs: nat, commitTs: nat)
    ensures OutboundTo(Seen(committed, committed.Keys), rw, readTs, commitTs) == {}
    ensures Seen(committed, {}) == committed
  {
  }

  lemma PushedNothing(index: WriteIndex, entry: WriteIndexEntry)
    ensures Pushed(index, {}, entry) == index
  {
  }

  lemma PushedOneMore(index: WriteIndex, done: set<u64>, h: u64, entry: WriteIndexEntry)
    requires h !in done
    ensures Pushed(index, done + {h}, entry) ==
            Pushed(index, done, entry)[h := EntriesOf(Pushed(index, done, entry), h) + [entry]]
  {
  }

  lemma NoEntriesNoSources(readTs: nat, commitTs: nat)
    ensures EntrySources([], readTs, commitTs) == {}
  {
  }
}