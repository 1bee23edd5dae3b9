/**
 `WalManager` of crabstash-storage/src/wal.rs over its two directories, each a map from segment id to the
 bytes of the file, and recovery of what they hold.
 */
module WalManagers {
  import opened Bytes
  import opened Sequences
  import opened Wal
  import opened WalState

  type Directory = map<nat, bytes>

  /** Every file of a directory is the log of its segment. */
  predicate FilesOk(c: Codec, files: Directory, segments: map<nat, seq<Chunk>>) {
    files.Keys == segments.Keys && forall i :: i in files ==> files[i] == LogOf(c, Flatten(segments[i]))
  }

  lemma FilesUpdate(c: Codec, files: Directory, segments: map<nat, seq<Chunk>>, i: nat, chunks: seq<Chunk>)
    requires FilesOk(c, files, segments)
    ensures FilesOk(c, files[i := LogOf(c, Flatten(chunks))], segments[i := chunks])
    ensures i in segments ==> FilesOk(c, files - {i}, segments - {i}) && files[i] == LogOf(c, Flatten(segments[i]))
  {
    hide LogOf, Flatten;
  }

  lemma FilesCreate(c: Codec, files: Directory, segments: map<nat, seq<Chunk>>, i: nat)
    requires FilesOk(c, files, segments)
    ensures FilesOk(c, files[i := []], segments[i := []])
  {
    EmptyFits(c);
    hide LogOf, Flatten;
  }

  lemma ChunkInLog(c: Codec, chunks: seq<Chunk>, chunk: Chunk)
    ensures LogOf(c, Flatten(chunks + [chunk])) == LogOf(c, Flatten(chunks)) + LogOf(c, chunk)
  {
    assert (chunks + [chunk])[..|chunks|] == chunks;
    assert Flatten(chunks + [chunk]) == Flatten(chunks) + chunk;
    LogConcat(c, Flatten(chunks), chunk);
  }

  /** The smallest and largest segment id of a directory, in any listing order. */
  method SegmentIds(walDir: Directory) returns (minSegment: nat, maxSegment: nat)
    requires walDir != map[]
    ensures minSegment in walDir && maxSegment in walDir
    ensures forall k :: k in walDir ==> minSegment <= k <= maxSegment
  {
    assert walDir.Keys != {};
    var i :| i in walDir;
    minSegment, maxSegment := i, i;
    var remaining := walDir.Keys;
    while remaining != {}
      invariant remaining <= walDir.Keys && maxSegment in walDir && minSegment in walDir
      invariant forall k :: k in walDir && k !in remaining ==> minSegment <= k <= maxSegment
      decreases remaining
    {
      var k :| k in remaining;
      maxSegment := if k > maxSegment then k else maxSegment;
      minSegment := if k < minSegment then k else minSegment;
      remaining := remaining - {k};
    }
  }

  class WalManager {
    const codec: Codec
    const options: Options
    var walDir: Directory
    var archiveDir: Directory
    var currentSegment: nat
    var firstSegment: nat
    var currentSize: nat
    ghost var live: map<nat, seq<Chunk>>
    ghost var archived: map<nat, seq<Chunk>>

    ghost function View(): Segments
      reads this
    {
      Segments(live, archived, currentSegment, firstSegment, currentSize)
    }

    ghost predicate Valid()
      reads this
    {
      FilesOk(codec, walDir, live) && FilesOk(codec, archiveDir, archived) && currentSegment in live
    }

    /** Opening: the largest and smallest segment ids of the directory, or a first segment. */
    constructor Open(codec: Codec, options: Options, walDir: Directory, archiveDir: Directory,
                     ghost live: map<nat, seq<Chunk>>, ghost archived: map<nat, seq<Chunk>>)
      requires FilesOk(codec, walDir, live) && FilesOk(codec, archiveDir, archived)
      ensures Valid() && this.codec == codec && this.options == options && this.archived == archived
      ensures walDir == map[] ==>
              View() == Segments(map[FIRST_SEGMENT := []], archived, FIRST_SEGMENT, FIRST_SEGMENT, 0)
      ensures walDir != map[] ==>
                && this.live == live && currentSegment in live && firstSegment in live
                && (forall i :: i in live ==> firstSegment <= i <= currentSegment)
                && currentSize == |LogOf(codec, Flatten(live[currentSegment]))|
    {
      this.codec, this.options := codec, options;
      this.archiveDir, this.archived := archiveDir, archived;
      if walDir == map[] {
        currentSegment, firstSegment, currentSize := FIRST_SEGMENT, FIRST_SEGMENT, 0;
        this.walDir, this.live := map[FIRST_SEGMENT := []], map[FIRST_SEGMENT := []];
      } else {
        var minSegment, maxSegment := SegmentIds(walDir);
        currentSegment, firstSegment, currentSize := maxSegment, minSegment, |walDir[maxSegment]|;
        this.walDir, this.live := walDir, live;
      }
      new;
      EmptyFits(codec);
    }

    /** A file with the frames of some records behind what it holds. */
    method AppendFrames(file: bytes, records: seq<WalRecord>) returns (r: bytes)
      ensures r == file + LogOf(codec, EntriesOf(records, options.compression))
    {
      hide LogOf, Frame;
      r := file;
      assert LogOf(codec, EntriesOf([], options.compression)) == [] by { EmptyChunk(codec, options.compression); }
      for i := 0 to |records|
        invariant r == file + LogOf(codec, EntriesOf(records[..i], options.compression))
      {
        FrameAtEnd(codec, records, i, options.compression);
        r := r + Frame(codec, options.compression, records[i]);
      }
      assert records[..|records|] == records;
    }

    /** Writes a chunk to the current file. */
    method Write(records: seq<WalRecord>)
      requires Valid()
      modifies this`walDir, this`live
      ensures Valid()
      ensures View() == Appended(old(View()), EntriesOf(records, options.compression), 0)
    {
      hide LogOf, Flatten, Frame, EntriesOf;
      var chunk := EntriesOf(records, options.compression);
      FilesUpdate(codec, walDir, live, currentSegment, live[currentSegment]);
      FilesUpdate(codec, walDir, live, currentSegment, live[currentSegment] + [chunk]);
      ChunkInLog(codec, live[currentSegment], chunk);
      hide FilesOk;
      var file := AppendFrames(walDir[currentSegment], records);
      walDir := walDir[currentSegment := file];
      live := live[currentSegment := live[currentSegment] + [chunk]];
    }

    /** Renames the segments before `upTo` into the archive, one by one. */
    method RenameUpTo(upTo: nat)
      requires FilesOk(codec, walDir, live) && FilesOk(codec, archiveDir, archived) && firstSegment <= upTo
      modifies this`walDir, this`archiveDir, this`live, this`archived
      ensures FilesOk(codec, walDir, live) && FilesOk(codec, archiveDir, archived)
      ensures View() == Moved(old(View()), upTo)
    {
      hide FilesOk, Moved, LogOf, Flatten;
      var from, to, s := Rename(codec, walDir, archiveDir, firstSegment, upTo, View());
      walDir, archiveDir, live, archived := from, to, s.live, s.archived;
    }

    method ArchiveOldSegments()
      requires FilesOk(codec, walDir, live) && FilesOk(codec, archiveDir, archived)
      modifies this`walDir, this`archiveDir, this`live, this`archived, this`firstSegment
      ensures FilesOk(codec, walDir, live) && FilesOk(codec, archiveDir, archived)
      ensures View() == Archive(options, old(View()))
    {
      hide FilesOk, Moved, LogOf, Flatten;
      if !options.hasArchive || currentSegment <= firstSegment + options.minSegmentsToKeep {
        return;
      }
      var upTo := currentSegment - options.minSegmentsToKeep;
      RenameUpTo(upTo);
      firstSegment := upTo;
    }

    method CreateSegment()
      requires Valid()
      modifies this`walDir, this`live, this`currentSegment, this`currentSize
      ensures Valid() && View() == Opened(old(View()))
    {
      hide FilesOk, LogOf, Flatten;
      FilesCreate(codec, walDir, live, currentSegment + 1);
      walDir, live := walDir[currentSegment + 1 := []], live[currentSegment + 1 := []];
      currentSegment := currentSegment + 1;
      currentSize := 0;
    }

    method RotateSegment()
      requires Valid()
      modifies this
      ensures FilesOk(codec, walDir, live) && FilesOk(codec, archiveDir, archived)
      ensures View() == Rotate(options, old(View()))
    {
      hide FilesOk, Archive, Opened, View;
      CreateSegment();
      ArchiveOldSegments();
    }

    method AppendRecord(r: WalRecord)
      requires Valid()
      modifies this
      ensures Valid() && View() == Append(options, old(View()), [Entry(r, options.compression)], false)
    {
      hide FilesOk, LogOf, Flatten, Rotate;
      SingleChunk(r, options.compression);
      var estimatedSize := EstimatedSize(r);
      if currentSize + estimatedSize <= options.segmentSizeBytes {
        Write([r]);
        currentSize := currentSize + estimatedSize;
        return;
      }
      RotateHasCurrent(options, View());
      RotateSegment();
      Write([r]);
      currentSize := currentSize + estimatedSize;
    }

    method AppendBatch(records: seq<WalRecord>)
      requires Valid()
      modifies this
      ensures Valid() && View() == Append(options, old(View()), EntriesOf(records, options.compression), true)
    {
      hide FilesOk, LogOf, Flatten, EntriesOf, Rotate;
      var estimatedSize := SumOfSizes(records);
      if currentSize + estimatedSize <= options.segmentSizeBytes {
        Write(records);
        currentSize := currentSize + estimatedSize;
        return;
      }
      RotateHasCurrent(options, View());
      RotateSegment();
      Write(records);
      currentSize := currentSize + estimatedSize;
      currentSize := currentSize + estimatedSize;
    }

    method SumOfSizes(records: seq<WalRecord>) returns (sum: nat)
      ensures sum == EstimatedSizes(EntriesOf(records, options.compression))
    {
      assert EntriesOf([], options.compression) == [] && EstimatedSizes([]) == 0;
      hide EntriesOf, EstimatedSizes;
      sum := 0;
      for i := 0 to |records|
        invariant sum == EstimatedSizes(EntriesOf(records[..i], options.compression))
      {
        EntriesOneMore(records, i, options.compression);
        SizesOneMore(EntriesOf(records[..i], options.compression), Entry(records[i], options.compression));
        sum := sum + EstimatedSize(records[i]);
      }
      assert records[..|records|] == records;
    }
  }

  lemma SizesOneMore(chunk: Chunk, e: Entry)
    ensures EstimatedSizes(chunk + [e]) == EstimatedSizes(chunk) + EstimatedSize(e.record)
  {
    assert (chunk + [e])[..|chunk|] == chunk;
  }

  lemma SingleChunk(r: WalRecord, compression: bool)
    ensures EntriesOf([r], compression) == [Entry(r, compression)]
    ensures EstimatedSizes([Entry(r, compression)]) == EstimatedSize(r)
  {
    assert [Entry(r, compression)][..0] == [];
  }

  lemma RotateHasCurrent(o: Options, s: Segments)
    ensures Rotate(o, s).current in Rotate(o, s).live && Rotate(o, s).size == 0
  {
  }

  /** `fs::rename` of every segment file there is from `lo` up to `hi`. */
  method Rename(c: Codec, walDir: Directory, archiveDir: Directory, lo: nat, hi: nat, ghost s: Segments)
    returns (from: Directory, to: Directory, ghost moved: Segments)
    requires FilesOk(c, walDir, s.live) && FilesOk(c, archiveDir, s.archived) && s.first == lo <= hi
    ensures FilesOk(c, from, moved.live) && FilesOk(c, to, moved.archived) && moved == Moved(s, hi)
    ensures moved.current == s.current && moved.first == s.first && moved.size == s.size
  {
    hide FilesOk, Moved, MovedOne;
    from, to, moved := walDir, archiveDir, s;
    NothingMoved(s);
    for i := lo to hi
      invariant FilesOk(c, from, moved.live) && FilesOk(c, to, moved.archived) && moved == Moved(s, i)
    {
      MovedOneMore(s, i);
      MoveFile(c, from, to, moved, i);
      if i in from {
        from, to := from - {i}, to[i := from[i]];
      }
      moved := MovedOne(moved, i);
    }
    MovedOnlyFiles(s, hi);
  }

  lemma MovedOnlyFiles(s: Segments, hi: nat)
    ensures Moved(s, hi).current == s.current && Moved(s, hi).first == s.first && Moved(s, hi).size == s.size
  {
  }

  lemma NothingMoved(s: Segments)
    ensures Moved(s, s.first) == s
  {
  }

  function MovedOne(s: Segments, i: nat): Segments {
    if i in s.live then s.(live := s.live - {i}, archived := s.archived[i := s.live[i]]) else s
  }

  lemma MovedOneMore(s: Segments, i: nat)
    requires s.first <= i
    ensures Moved(s, i + 1) == MovedOne(Moved(s, i), i)
  {
    LiveOneLess(s, i);
    ArchivedOneMore(s, i);
    MovedOnlyFiles(s, i);
    MovedOnlyFiles(s, i + 1);
    hide Moved;
  }

  lemma LiveOneLess(s: Segments, i: nat)
    requires s.first <= i
    ensures Moved(s, i + 1).live == Moved(s, i).live - {i}
    ensures i in Moved(s, i).live <==> i in s.live
    ensures i in s.live ==> Moved(s, i).live[i] == s.live[i]
  {
  }

  lemma ArchivedOneMore(s: Segments, i: nat)
    requires s.first <= i
    ensures Moved(s, i + 1).archived ==
            if i in s.live then Moved(s, i).archived[i := s.live[i]] else Moved(s, i).archived
  {
  }

  lemma MoveFile(c: Codec, from: Directory, to: Directory, s: Segments, i: nat)
    requires FilesOk(c, from, s.live) && FilesOk(c, to, s.archived)
    ensures FilesOk(c, if i in from then from - {i} else from, MovedOne(s, i).live)
    ensures FilesOk(c, if i in from then to[i := from[i]] else to, MovedOne(s, i).archived)
  {
    hide LogOf, Flatten;
  }

  lemma EmptyChunk(c: Codec, compression: bool)
    ensures LogOf(c, EntriesOf([], compression)) == []
  {
  }

  lemma FrameAtEnd(c: Codec, records: seq<WalRecord>, i: nat, compression: bool)
    requires i < |records|
    ensures LogOf(c, EntriesOf(records[..i + 1], compression)) ==
            LogOf(c, EntriesOf(records[..i], compression)) + Frame(c, compression, records[i])
  {
    EntriesOneMore(records, i, compression);
    LogConcat(c, EntriesOf(records[..i], compression), [Entry(records[i], compression)]);
    FrameIsLog(c, Entry(records[i], compression));
  }

  // ---------------------------------------------------------------- recovery

  /** The records with a timestamp from `lo` to `hi`. */
  function Kept(records: seq<WalRecord>, lo: nat, hi: nat): seq<WalRecord> {
    if records == [] then []
    else
      var rest, last := Kept(records[..|records| - 1], lo, hi), records[|records| - 1];
      if lo <= last.timestamp <= hi then rest + [last] else rest
  }

  /** One segment's part; a segment that cannot be read is skipped. */
  function KeptOf(r: Result<seq<WalRecord>>, lo: nat, hi: nat): seq<WalRecord> {
    match r
    case Ok(records) => Kept(records, lo, hi)
    case Err(_) => []
  }

  /** What the segments with ids below `n` give, by id. */
  function RecoveredBelow(c: Codec, files: Directory, lo: nat, hi: nat, n: nat): seq<WalRecord> {
    if n == 0 then []
    else
      RecoveredBelow(c, files, lo, hi, n - 1)
      + if n - 1 in files then KeptOf(Recovered(c, true, files[n - 1]), lo, hi) else []
  }

  lemma {:induction false} NothingBetween(c: Codec, files: Directory, lo: nat, hi: nat, a: nat, b: nat)
    requires a <= b && forall i :: a <= i < b ==> i !in files
    ensures RecoveredBelow(c, files, lo, hi, b) == RecoveredBelow(c, files, lo, hi, a)
    decreases b
  {
    if a < b {
      NothingBetween(c, files, lo, hi, a, b - 1);
    }
  }

  method Filter(records: seq<WalRecord>, lo: nat, hi: nat) returns (r: seq<WalRecord>)
    ensures r == Kept(records, lo, hi)
  {
    r := [];
    for i := 0 to |records|
      invariant r == Kept(records[..i], lo, hi)
    {
      assert records[..i + 1][..i] == records[..i];
      if lo <= records[i].timestamp <= hi {
        r := r + [records[i]];
      }
    }
    assert records[..|records|] == records;
  }

  method Least(ids: set<nat>) returns (least: nat)
    requires ids != {}
    ensures least in ids && forall i :: i in ids ==> least <= i
  {
    least :| least in ids;
    var remaining := ids;
    while remaining != {}
      invariant remaining <= ids && least in ids
      invariant forall i :: i in ids && i !in remaining ==> least <= i
      decreases remaining
    {
      var i :| i in remaining;
      least := if i < least then i else least;
      remaining := remaining - {i};
    }
  }

  /** `n` is past every segment id of the directory. */
  predicate Past(files: Directory, n: nat) {
    forall i :: i in files ==> i < n
  }

  /** Reads the segments of a directory in the order of their ids. */
  method RecoverFiles(c: Codec, files: Directory, lo: nat, hi: nat) returns (all: seq<WalRecord>)
    ensures forall n :: Past(files, n) ==> all == RecoveredBelow(c, files, lo, hi, n)
  {
    all := [];
    ghost var bound := 0;
    var remaining := files.Keys;
    while remaining != {}
      invariant remaining <= files.Keys
      invariant all == RecoveredBelow(c, files, lo, hi, bound)
      invariant forall i :: i in files ==> (i in remaining <==> bound <= i)
      invariant remaining != files.Keys ==> bound > 0 && bound - 1 in files
      invariant remaining == files.Keys ==> bound == 0
      decreases remaining
    {
      var i := Least(remaining);
      NothingBetween(c, files, lo, hi, bound, i);
      var r := Recover(c, true, files[i]);
      if r.Ok? {
        var kept := Filter(r.value, lo, hi);
        all := all + kept;
      }
      bound := i + 1;
      remaining := remaining - {i};
    }
    forall n | Past(files, n) ensures all == RecoveredBelow(c, files, lo, hi, n) {
      NothingBetween(c, files, lo, hi, bound, n);
    }
  }

  method RecoverFromTimestamp(c: Codec, walDir: Directory, minTimestamp: u64) returns (all: seq<WalRecord>)
    ensures forall n :: Past(walDir, n) ==> all == RecoveredBelow(c, walDir, minTimestamp, U64_MAX, n)
  {
    all := RecoverFiles(c, walDir, minTimestamp, U64_MAX);
  }

  /** Archived segments come first, so they win over live ones of the same id. */
  method RecoverPitr(c: Codec, walDir: Directory, archiveDir: Directory, target: u64) returns (all: seq<WalRecord>)
    ensures forall n :: Past(walDir + archiveDir, n) ==> all == RecoveredBelow(c, walDir + archiveDir, 0, target, n)
  {
    all := RecoverFiles(c, walDir + archiveDir, 0, target);
  }

  // ---------------------------------------------------------------- what recovery returns

  /** What is kept is every record in the window, as often as it is there. */
  lemma {:induction false} KeptExactly(records: seq<WalRecord>, lo: nat, hi: nat, r: WalRecord)
    ensures multiset(Kept(records, lo, hi))[r] == if lo <= r.timestamp <= hi then multiset(records)[r] else 0
  {
    if records != [] {
      KeptExactly(records[..|records| - 1], lo, hi, r);
      assert records == records[..|records| - 1] + [records[|records| - 1]];
    }
  }

  /** And in order: what comes before a record, then the record, then what comes after it. */
  lemma KeptInOrder(before: seq<WalRecord>, r: WalRecord, after: seq<WalRecord>, lo: nat, hi: nat)
    requires lo <= r.timestamp <= hi
    ensures Kept(before + [r] + after, lo, hi) == Kept(before, lo, hi) + [r] + Kept(after, lo, hi)
  {
    KeptConcat(before + [r], after, lo, hi);
    KeptConcat(before, [r], lo, hi);
    assert [r][..0] == [];
  }

  lemma {:induction false} KeptConcat(a: seq<WalRecord>, b: seq<WalRecord>, lo: nat, hi: nat)
    ensures Kept(a + b, lo, hi) == Kept(a, lo, hi) + Kept(b, lo, hi)
    decreases |b|
  {
    if b == [] {
      assert a + b == a;
    } else {
      assert (a + b)[..|a + b| - 1] == a + b[..|b| - 1];
      KeptConcat(a, b[..|b| - 1], lo, hi);
    }
  }

  lemma RecordsConcat(a: seq<Entry>, b: seq<Entry>)
    ensures Records(a + b) == Records(a) + Records(b)
  {
  }

  /** Recovery of the files of some segments is the filtered record sequence of those segments. */
  lemma {:induction false} SegmentsRecover(c: Codec, s: Segments, files: Directory, lo: nat, hi: nat, from: nat, n: nat)
    requires GoodCodec(c) && from <= n
    requires forall i :: i in files ==> from <= i && files[i] == LogOf(c, Flatten(SegmentAt(s, i)))
    requires forall i :: from <= i < n ==> Writable(Flatten(SegmentAt(s, i)), true)
    requires forall i :: from <= i < n && i !in files ==> SegmentAt(s, i) == []
    ensures RecoveredBelow(c, files, lo, hi, n) == Kept(Records(Flatten(Concat(s, from, n))), lo, hi)
    decreases n
  {
    hide GoodCodec, LogOf, SegmentAt, Writable, Recovered, Kept, Records, Flatten;
    if n == from {
      NothingBetween(c, files, lo, hi, 0, n);
      assert Concat(s, from, n) == [];
      EmptyKept(lo, hi);
    } else {
      SegmentsRecover(c, s, files, lo, hi, from, n - 1);
      ConcatKept(s, from, n, lo, hi);
      hide Concat;
      if n - 1 in files {
        LogRecovers(c, true, Flatten(SegmentAt(s, n - 1)));
      } else {
        EmptyKept(lo, hi);
      }
    }
  }

  lemma ConcatKept(s: Segments, from: nat, n: nat, lo: nat, hi: nat)
    requires from < n
    ensures Kept(Records(Flatten(Concat(s, from, n))), lo, hi) ==
            Kept(Records(Flatten(Concat(s, from, n - 1))), lo, hi) + Kept(Records(Flatten(SegmentAt(s, n - 1))), lo, hi)
  {
    hide Kept, Records, Flatten, SegmentAt;
    var front, chunks := Concat(s, from, n - 1), SegmentAt(s, n - 1);
    FlattenConcat(front, chunks);
    RecordsConcat(Flatten(front), Flatten(chunks));
    KeptConcat(Records(Flatten(front)), Records(Flatten(chunks)), lo, hi);
  }

  lemma EmptyKept(lo: nat, hi: nat)
    ensures Kept(Records(Flatten([])), lo, hi) == []
  {
  }

  predicate WritableChunks(chunks: seq<Chunk>) {
    forall k :: 0 <= k < |chunks| ==> Writable(chunks[k], true)
  }

  predicate WellFormedOp(op: Op) {
    match op
    case OpAppend(r) => WellFormed(r)
    case OpBatch(rs) => forall k :: 0 <= k < |rs| ==> WellFormed(rs[k])
    case OpReopen => true
  }

  lemma {:induction false} HistoryWritable(o: Options, ops: seq<Op>)
    requires forall k :: 0 <= k < |ops| ==> WellFormedOp(ops[k])
    ensures WritableChunks(History(o, ops))
  {
    if ops != [] {
      HistoryWritable(o, ops[..|ops| - 1]);
      var op := ops[|ops| - 1];
      assert WellFormedOp(op);
      hide WellFormed;
      assert Writable(ChunkOf(o, op), true);
    }
  }

  lemma {:induction false} FlattenWritable(chunks: seq<Chunk>)
    requires WritableChunks(chunks)
    ensures Writable(Flatten(chunks), true)
  {
    hide WellFormed;
    if chunks != [] {
      FlattenWritable(chunks[..|chunks| - 1]);
      assert Writable(chunks[|chunks| - 1], true);
    }
  }

  /** A segment of a writable concatenation is writable. */
  lemma {:induction false} SegmentWritable(s: Segments, lo: nat, hi: nat, i: nat)
    requires lo <= i < hi && WritableChunks(Concat(s, lo, hi))
    ensures WritableChunks(SegmentAt(s, i))
    decreases hi
  {
    hide SegmentAt, Writable;
    var front, last := Concat(s, lo, hi - 1), SegmentAt(s, hi - 1);
    if i == hi - 1 {
      forall k | 0 <= k < |last| ensures Writable(last[k], true) {
        assert Concat(s, lo, hi)[|front| + k] == last[k];
      }
    } else {
      forall k | 0 <= k < |front| ensures Writable(front[k], true) {
        assert Concat(s, lo, hi)[k] == front[k];
      }
      SegmentWritable(s, lo, hi - 1, i);
    }
  }

  lemma {:induction false} EmptyTail(s: Segments, lo: nat, a: nat, b: nat)
    requires a <= b && forall i :: a <= i < b ==> SegmentAt(s, i) == []
    ensures Concat(s, lo, b) == Concat(s, lo, a) || lo >= a
    decreases b
  {
    hide SegmentAt;
    if a < b {
      EmptyTail(s, lo, a, b - 1);
    }
  }

  /** `files` holds the logs of the segments from `from` on. */
  ghost predicate HoldsFrom(c: Codec, files: Directory, s: Segments, from: nat) {
    && FIRST_SEGMENT <= from <= s.current
    && (forall i: nat :: i in files <==> from <= i <= s.current)
    && (forall i: nat :: i in files ==> files[i] == LogOf(c, Flatten(SegmentAt(s, i))))
  }

  /** Both directories together hold all segments. */
  lemma AllFiles(c: Codec, s: Segments, walDir: Directory, archiveDir: Directory)
    requires IdsOk(s) && FilesOk(c, walDir, s.live) && FilesOk(c, archiveDir, s.archived)
    ensures HoldsFrom(c, walDir + archiveDir, s, FIRST_SEGMENT)
  {
    hide LogOf, Flatten;
  }

  /** The live directory holds those from the first live one on. */
  lemma LiveFiles(c: Codec, s: Segments, walDir: Directory)
    requires IdsOk(s) && FilesOk(c, walDir, s.live)
    ensures HoldsFrom(c, walDir, s, s.first)
  {
    hide LogOf, Flatten;
  }

  /** Every segment can be read back, and there is nothing past the current one. */
  ghost predicate SegmentsReadable(s: Segments) {
    && (forall i: nat :: FIRST_SEGMENT <= i ==> Writable(Flatten(SegmentAt(s, i)), true))
    && (forall i: nat :: i > s.current ==> SegmentAt(s, i) == [])
  }

  lemma SegmentsAreReadable(o: Options, ops: seq<Op>, s: Segments)
    requires forall k :: 0 <= k < |ops| ==> WellFormedOp(ops[k])
    requires IdsOk(s) && Concat(s, FIRST_SEGMENT, s.current + 1) == History(o, ops)
    ensures SegmentsReadable(s)
  {
    HistoryWritable(o, ops);
    hide WellFormedOp, History, Writable;
    forall i: nat | FIRST_SEGMENT <= i ensures Writable(Flatten(SegmentAt(s, i)), true) {
      if i <= s.current {
        SegmentWritable(s, FIRST_SEGMENT, s.current + 1, i);
      }
      FlattenWritable(SegmentAt(s, i));
    }
  }

  /** The state after a run of well-formed operations. */
  lemma RunIsReadable(c: Codec, o: Options, ops: seq<Op>)
    requires forall k :: 0 <= k < |ops| ==> WellFormedOp(ops[k])
    ensures var s := Run(c, o, ops);
            IdsOk(s) && SegmentsReadable(s) && Concat(s, FIRST_SEGMENT, s.current + 1) == History(o, ops)
  {
    RunConserves(c, o, ops);
    hide SizesOk, FewLive, Run, History, Concat, WellFormedOp;
    SegmentsAreReadable(o, ops, Run(c, o, ops));
    hide IdsOk, SegmentsReadable;
  }

  /** Recovery of such a directory gives what those segments hold. */
  lemma FilesRecover(c: Codec, s: Segments, files: Directory, lo: nat, hi: nat, from: nat, n: nat)
    requires GoodCodec(c) && SegmentsReadable(s) && HoldsFrom(c, files, s, from) && Past(files, n)
    ensures RecoveredBelow(c, files, lo, hi, n) == Kept(Records(Flatten(Concat(s, from, s.current + 1))), lo, hi)
  {
    hide GoodCodec, Writable, LogOf, Flatten, SegmentAt, Concat, RecoveredBelow, Kept, Records;
    assert s.current in files;
    SegmentsRecover(c, s, files, lo, hi, from, n);
    EmptyTail(s, from, s.current + 1, n);
  }

  /**
   Point-in-time recovery after any run of well-formed appends, batches and reopenings: exactly what was
   appended, in order, up to the target timestamp.
   */
  lemma PitrIsHistory(c: Codec, o: Options, ops: seq<Op>, walDir: Directory, archiveDir: Directory, target: u64, n: nat)
    requires GoodCodec(c) && forall k :: 0 <= k < |ops| ==> WellFormedOp(ops[k])
    requires FilesOk(c, walDir, Run(c, o, ops).live) && FilesOk(c, archiveDir, Run(c, o, ops).archived)
    requires Past(walDir + archiveDir, n)
    ensures RecoveredBelow(c, walDir + archiveDir, 0, target, n) == Kept(Records(Flatten(History(o, ops))), 0, target)
  {
    hide IdsOk, FilesOk, Past, HoldsFrom, SegmentsReadable, GoodCodec, WellFormedOp;
    hide Run, History, Concat, RecoveredBelow, Kept, Records, Flatten;
    var s := Run(c, o, ops);
    RunIsReadable(c, o, ops);
    AllFiles(c, s, walDir, archiveDir);
    FilesRecover(c, s, walDir + archiveDir, 0, target, FIRST_SEGMENT, n);
  }

  /** Recovery of the live directory alone: what the live segments hold, from a timestamp on. */
  lemma LiveRecovers(c: Codec, o: Options, ops: seq<Op>, walDir: Directory, archiveDir: Directory, min: u64, n: nat)
    requires GoodCodec(c) && forall k :: 0 <= k < |ops| ==> WellFormedOp(ops[k])
    requires FilesOk(c, walDir, Run(c, o, ops).live) && FilesOk(c, archiveDir, Run(c, o, ops).archived)
    requires Past(walDir, n)
    ensures RecoveredBelow(c, walDir, min, U64_MAX, n) ==
            var s := Run(c, o, ops);
            Kept(Records(Flatten(Concat(s, s.first, s.current + 1))), min, U64_MAX)
  {
    hide IdsOk, FilesOk, Past, HoldsFrom, SegmentsReadable, GoodCodec, WellFormedOp;
    hide Run, History, Concat, RecoveredBelow, Kept, Records, Flatten;
    var s := Run(c, o, ops);
    RunIsReadable(c, o, ops);
    LiveFiles(c, s, walDir);
    FilesRecover(c, s, walDir, min, U64_MAX, s.first, n);
  }

  /** With no target in the way recovery keeps everything. */
  lemma {:induction false} EverythingKept(records: seq<WalRecord>)
    ensures Kept(records, 0, U64_MAX) == records
  {
    if records != [] {
      EverythingKept(records[..|records| - 1]);
    }
  }

  /** `recover_pitr` with the largest target returns everything that was ever appended, in order. */
  lemma PitrIsEverything(c: Codec, o: Options, ops: seq<Op>, walDir: Directory, archiveDir: Directory, n: nat)
    requires GoodCodec(c) && forall k :: 0 <= k < |ops| ==> WellFormedOp(ops[k])
    requires FilesOk(c, walDir, Run(c, o, ops).live) && FilesOk(c, archiveDir, Run(c, o, ops).archived)
    requires Past(walDir + archiveDir, n)
    ensures RecoveredBelow(c, walDir + archiveDir, 0, U64_MAX, n) == Records(Flatten(History(o, ops)))
  {
    PitrIsHistory(c, o, ops, walDir, archiveDir, U64_MAX, n);
    EverythingKept(Records(Flatten(History(o, ops))));
  }

  /**
   `recover_all` reads the live directory alone. It returns everything that was ever appended precisely
   when the archived segments hold nothing, and always when there is no archive.
   */
  lemma LiveIsEverythingIff(c: Codec, o: Options, ops: seq<Op>, walDir: Directory, archiveDir: Directory, n: nat)
    requires GoodCodec(c) && forall k :: 0 <= k < |ops| ==> WellFormedOp(ops[k])
    requires FilesOk(c, walDir, Run(c, o, ops).live) && FilesOk(c, archiveDir, Run(c, o, ops).archived)
    requires Past(walDir, n)
    ensures RecoveredBelow(c, walDir, 0, U64_MAX, n) == Records(Flatten(History(o, ops))) <==>
            forall i | i in Run(c, o, ops).archived :: Flatten(Run(c, o, ops).archived[i]) == []
    ensures !o.hasArchive ==> RecoveredBelow(c, walDir, 0, U64_MAX, n) == Records(Flatten(History(o, ops)))
  {
    hide FilesOk, Past, WellFormedOp, GoodCodec, IdsOk, SegmentsReadable, Run, History, Concat, Flatten, Records;
    hide RecoveredBelow, Kept;
    LiveRecovers(c, o, ops, walDir, archiveDir, 0, n);
    RunIsReadable(c, o, ops);
    var s := Run(c, o, ops);
    EverythingKept(Records(Flatten(Concat(s, s.first, s.current + 1))));
    LiveHoldsAllIff(s);
    if !o.hasArchive {
      NothingArchived(c, o, ops);
      NoneBeforeFirst(s);
    }
  }

  lemma NoneBeforeFirst(s: Segments)
    requires IdsOk(s) && s.first == FIRST_SEGMENT
    ensures forall i :: i !in s.archived
  {
  }

  lemma LiveHoldsAllIff(s: Segments)
    requires IdsOk(s)
    ensures Records(Flatten(Concat(s, s.first, s.current + 1))) ==
            Records(Flatten(Concat(s, FIRST_SEGMENT, s.current + 1)))
            <==> forall i | i in s.archived :: Flatten(s.archived[i]) == []
  {
    hide Concat, Flatten, Records;
    var moved, kept := Concat(s, FIRST_SEGMENT, s.first), Concat(s, s.first, s.current + 1);
    ConcatSplit(s, FIRST_SEGMENT, s.first, s.current + 1);
    FlattenConcat(moved, kept);
    RecordsConcat(Flatten(moved), Flatten(kept));
    SameLength(Flatten(moved));
    PrefixEmptyIff(Records(Flatten(moved)), Records(Flatten(kept)));
    EmptyConcat(s, FIRST_SEGMENT, s.first);
    assert forall i | i in s.archived :: SegmentAt(s, i) == s.archived[i];
    hide SegmentAt;
  }

  lemma PrefixEmptyIff(a: seq<WalRecord>, b: seq<WalRecord>)
    ensures b == a + b <==> |a| == 0
  {
    if |a| == 0 {
      assert a + b == b;
    }
  }

  lemma SameLength(entries: seq<Entry>)
    ensures |Records(entries)| == |entries|
  {
  }

  /** A concatenation of segments holds nothing precisely when none of them does. */
  lemma {:induction false} EmptyConcat(s: Segments, lo: nat, hi: nat)
    ensures Flatten(Concat(s, lo, hi)) == [] <==> forall i | lo <= i < hi :: Flatten(SegmentAt(s, i)) == []
    decreases hi
  {
    hide SegmentAt;
    if lo < hi {
      EmptyConcat(s, lo, hi - 1);
      FlattenConcat(Concat(s, lo, hi - 1), SegmentAt(s, hi - 1));
      hide Flatten;
    }
  }
}
