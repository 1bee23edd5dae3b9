/**
 The segmented log of `WalManager` in crabstash-storage/src/wal.rs as a value: which segment holds which
 appends, and what rotation, archiving and reopening do to them over every run.
 */
module WalState {
  import opened Bytes
  import opened Sequences
  import opened Wal

  /** What one `append` or `append_batch` wrote. */
  type Chunk = seq<Entry>

  datatype Options = Options(compression: bool, segmentSizeBytes: nat, hasArchive: bool, minSegmentsToKeep: nat)

  datatype Segments = Segments(
    live: map<nat, seq<Chunk>>,
    archived: map<nat, seq<Chunk>>,
    current: nat,
    first: nat,
    size: nat)

  const FIRST_SEGMENT: nat := 1

  const NewSegments := Segments(map[FIRST_SEGMENT := []], map[], FIRST_SEGMENT, FIRST_SEGMENT, 0)

  // ---------------------------------------------------------------- sizes

  /** The size of a record as the manager estimates it: its frame without compression. */
  function EstimatedSize(r: WalRecord): nat {
    8 + 1 + 8 + 4 + |r.key| + match r.value case Some(v) => 4 + |v| case None => 0
  }

  function EstimatedSizes(chunk: Chunk): nat {
    if chunk == [] then 0 else EstimatedSizes(chunk[..|chunk| - 1]) + EstimatedSize(chunk[|chunk| - 1].record)
  }

  lemma FrameWithinEstimate(c: Codec, e: Entry)
    ensures |Frame(c, e.compression, e.record)| <= EstimatedSize(e.record)
  {
    var r := e.record;
    assert |Payload(r)| + 9 == EstimatedSize(r) by {
      hide U32ToLe, U64ToLe;
    }
    hide Payload;
  }

  lemma UncompressedFrame(c: Codec, e: Entry)
    requires !e.compression
    ensures |Frame(c, e.compression, e.record)| == EstimatedSize(e.record)
  {
    assert |Payload(e.record)| + 9 == EstimatedSize(e.record) by {
      hide U32ToLe, U64ToLe;
    }
    hide Payload;
  }

  /** Without compression the estimate is exact. */
  lemma {:induction false} EstimateIsExact(c: Codec, chunk: Chunk)
    requires forall i :: 0 <= i < |chunk| ==> !chunk[i].compression
    ensures EstimatedSizes(chunk) == |LogOf(c, chunk)|
  {
    if chunk == [] {
      EmptyFits(c);
    } else {
      hide Frame, LogOf, EstimatedSize;
      var init, last := chunk[..|chunk| - 1], chunk[|chunk| - 1];
      EstimateIsExact(c, init);
      assert chunk == init + [last];
      LogConcat(c, init, [last]);
      FrameIsLog(c, last);
      UncompressedFrame(c, last);
    }
  }

  lemma {:induction false} LogWithinEstimate(c: Codec, chunk: Chunk)
    ensures |LogOf(c, chunk)| <= EstimatedSizes(chunk)
  {
    if chunk == [] {
      EmptyFits(c);
    } else {
      hide Frame, LogOf, EstimatedSize;
      var init, last := chunk[..|chunk| - 1], chunk[|chunk| - 1];
      LogWithinEstimate(c, init);
      assert chunk == init + [last];
      LogConcat(c, init, [last]);
      FrameIsLog(c, last);
      FrameWithinEstimate(c, last);
    }
  }

  // ---------------------------------------------------------------- operations

  function Appended(s: Segments, chunk: Chunk, size: nat): Segments
    requires s.current in s.live
  {
    s.(live := s.live[s.current := s.live[s.current] + [chunk]], size := s.size + size)
  }

  /** The segments from `first` up to `upTo` moved to the archive. */
  function Moved(s: Segments, upTo: nat): Segments {
    s.(live := map i | i in s.live && !(s.first <= i < upTo) :: s.live[i],
       archived := map i | i in s.archived.Keys + s.live.Keys && (i in s.archived || s.first <= i < upTo) ::
                     if i in s.live && s.first <= i < upTo then s.live[i] else s.archived[i])
  }

  function Archive(o: Options, s: Segments): Segments {
    if !o.hasArchive || s.current <= s.first + o.minSegmentsToKeep then s
    else Moved(s, s.current - o.minSegmentsToKeep).(first := s.current - o.minSegmentsToKeep)
  }

  /** A fresh, empty current segment. */
  function Opened(s: Segments): Segments {
    s.(live := s.live[s.current + 1 := []], current := s.current + 1, size := 0)
  }

  function Rotate(o: Options, s: Segments): Segments {
    Archive(o, Opened(s))
  }

  /** `append`, and `append_batch` with its size counted twice after a rotation. */
  function Append(o: Options, s: Segments, chunk: Chunk, batch: bool): Segments
    requires s.current in s.live
  {
    var size := EstimatedSizes(chunk);
    if s.size + size <= o.segmentSizeBytes then Appended(s, chunk, size)
    else
      var s' := Rotate(o, s);
      if s'.current in s'.live then Appended(s', chunk, if batch then size + size else size) else s'
  }

  /** Closing and opening again: segment ids and sizes are read back from the directory. */
  function Reopen(c: Codec, s: Segments): Segments
    requires s.current in s.live
  {
    s.(size := |LogOf(c, Flatten(s.live[s.current]))|)
  }

  // ---------------------------------------------------------------- runs

  function SegmentAt(s: Segments, i: nat): seq<Chunk> {
    if i in s.archived then s.archived[i] else if i in s.live then s.live[i] else []
  }

  /** The chunks of segments `lo` up to `hi`, by segment id. */
  function Concat(s: Segments, lo: nat, hi: nat): seq<Chunk> {
    if hi <= lo then [] else Concat(s, lo, hi - 1) + SegmentAt(s, hi - 1)
  }

  ghost predicate IdsOk(s: Segments) {
    && FIRST_SEGMENT <= s.first <= s.current
    && (forall i :: i in s.live <==> s.first <= i <= s.current)
    && (forall i :: i in s.archived <==> FIRST_SEGMENT <= i < s.first)
  }

  /** A segment is within the limit, or holds one append or batch. */
  predicate SegmentOk(c: Codec, o: Options, chunks: seq<Chunk>) {
    |LogOf(c, Flatten(chunks))| <= o.segmentSizeBytes || |chunks| <= 1
  }

  predicate SizesOk(c: Codec, o: Options, s: Segments) {
    && s.current in s.live && |LogOf(c, Flatten(s.live[s.current]))| <= s.size
    && (forall i :: i in s.live ==> SegmentOk(c, o, s.live[i]))
    && (forall i :: i in s.archived ==> SegmentOk(c, o, s.archived[i]))
  }

  datatype Op = OpAppend(record: WalRecord) | OpBatch(records: seq<WalRecord>) | OpReopen

  function ChunkOf(o: Options, op: Op): Chunk {
    match op
    case OpAppend(r) => [Entry(r, o.compression)]
    case OpBatch(rs) => EntriesOf(rs, o.compression)
    case OpReopen => []
  }

  function Step(c: Codec, o: Options, s: Segments, op: Op): Segments
    requires s.current in s.live
  {
    if op.OpReopen? then Reopen(c, s) else Append(o, s, ChunkOf(o, op), op.OpBatch?)
  }

  /** A fixed archive directory never leaves more than the kept segments and the current one. */
  predicate FewLive(o: Options, s: Segments) {
    o.hasArchive ==> s.current - s.first <= o.minSegmentsToKeep
  }

  ghost predicate Inv(c: Codec, o: Options, s: Segments) {
    IdsOk(s) && SizesOk(c, o, s) && FewLive(o, s)
  }

  function Run(c: Codec, o: Options, ops: seq<Op>): Segments {
    if ops == [] then NewSegments
    else
      var s := Run(c, o, ops[..|ops| - 1]);
      if s.current in s.live then Step(c, o, s, ops[|ops| - 1]) else s
  }

  /** Everything appended, in order. */
  function History(o: Options, ops: seq<Op>): seq<Chunk> {
    if ops == [] then []
    else
      var before, op := History(o, ops[..|ops| - 1]), ops[|ops| - 1];
      if op.OpReopen? then before else before + [ChunkOf(o, op)]
  }

  /**
   What opening reads off the directories, the least and the greatest id and the size of the last file, is
   the state that was left, but for a size that was only estimated.
   */
  lemma OpeningIsReopen(c: Codec, s: Segments, s': Segments)
    requires IdsOk(s) && s'.live == s.live && s'.archived == s.archived
    requires s'.current in s.live && s'.first in s.live && forall i | i in s.live :: s'.first <= i <= s'.current
    requires s'.size == |LogOf(c, Flatten(s.live[s'.current]))|
    ensures Reopen(c, s) == s'
  {
    assert s.current in s.live && s.first in s.live;
    hide LogOf, Flatten;
  }

  // ---------------------------------------------------------------- rotation and archiving

  lemma {:induction false} ConcatSame(s: Segments, s': Segments, lo: nat, hi: nat)
    requires forall i :: lo <= i < hi ==> SegmentAt(s, i) == SegmentAt(s', i)
    ensures Concat(s, lo, hi) == Concat(s', lo, hi)
    decreases hi
  {
    hide SegmentAt;
    if hi > lo {
      ConcatSame(s, s', lo, hi - 1);
    }
  }

  /** Archiving moves segments and changes the contents of none. */
  lemma ArchiveKeepsSegments(o: Options, s: Segments)
    requires IdsOk(s)
    ensures IdsOk(Archive(o, s)) && FewLive(o, Archive(o, s))
    ensures forall i :: SegmentAt(Archive(o, s), i) == SegmentAt(s, i)
    ensures Archive(o, s).current == s.current && Archive(o, s).size == s.size
  {
  }

  lemma ArchiveKeepsSizes(c: Codec, o: Options, s: Segments)
    requires IdsOk(s) && SizesOk(c, o, s)
    ensures SizesOk(c, o, Archive(o, s))
  {
    hide SegmentOk, Flatten, LogOf;
  }

  lemma EmptyFits(c: Codec)
    ensures Flatten<Entry>([]) == [] && LogOf(c, []) == []
  {
  }

  lemma OpenedSizes(c: Codec, o: Options, s: Segments)
    requires SizesOk(c, o, s)
    ensures SizesOk(c, o, Opened(s))
  {
    EmptyFits(c);
    hide Flatten, LogOf;
  }

  lemma NewSegment(s: Segments)
    requires IdsOk(s)
    ensures IdsOk(Opened(s)) && SegmentAt(Opened(s), s.current + 1) == []
    ensures forall i: nat :: i <= s.current ==> SegmentAt(Opened(s), i) == SegmentAt(s, i)
  {
  }

  lemma OpenedConcat(s: Segments)
    requires IdsOk(s)
    ensures IdsOk(Opened(s))
    ensures Concat(Opened(s), FIRST_SEGMENT, s.current + 2) == Concat(s, FIRST_SEGMENT, s.current + 1)
  {
    hide SegmentAt, Opened, IdsOk;
    NewSegment(s);
    var chunks := Concat(Opened(s), FIRST_SEGMENT, s.current + 1);
    assert Concat(Opened(s), FIRST_SEGMENT, s.current + 2) == chunks + [];
    hide Concat;
    ConcatSame(s, Opened(s), FIRST_SEGMENT, s.current + 1);
    assert chunks + [] == chunks;
  }

  lemma RotateOk(c: Codec, o: Options, s: Segments)
    requires Inv(c, o, s)
    ensures Inv(c, o, Rotate(o, s)) && Rotate(o, s).current == s.current + 1 && Rotate(o, s).size == 0
    ensures Rotate(o, s).live[s.current + 1] == []
    ensures Concat(Rotate(o, s), FIRST_SEGMENT, s.current + 2) == Concat(s, FIRST_SEGMENT, s.current + 1)
  {
    hide SizesOk, Concat, Archive;
    OpenedSizes(c, o, s);
    OpenedConcat(s);
    var s' := Opened(s);
    ArchiveKeepsSegments(o, s');
    ArchiveKeepsSizes(c, o, s');
    ConcatSame(s', Archive(o, s'), FIRST_SEGMENT, s'.current + 1);
    assert SegmentAt(s', s'.current) == [];
  }

  /**
   An append opens a new segment exactly when the current one would pass the limit, and with an archive then
   leaves the current segment and just as many others as are to be kept, if there are that many.
   */
  lemma RotatesExactly(o: Options, s: Segments, chunk: Chunk, batch: bool)
    requires IdsOk(s)
    ensures var s' := Append(o, s, chunk, batch);
            && s'.current == (if s.size + EstimatedSizes(chunk) <= o.segmentSizeBytes then s.current else s.current + 1)
            && (s'.current == s.current ==> s'.first == s.first && s'.size == s.size + EstimatedSizes(chunk))
            && (s'.current != s.current ==>
                  && s'.size == EstimatedSizes(chunk) * (if batch then 2 else 1)
                  && s'.first == if o.hasArchive && s'.current - s.first > o.minSegmentsToKeep
                                 then s'.current - o.minSegmentsToKeep else s.first)
  {
    hide EstimatedSizes;
  }

  // ---------------------------------------------------------------- appending

  lemma ChunkFits(c: Codec, chunks: seq<Chunk>, chunk: Chunk)
    ensures |LogOf(c, Flatten(chunks + [chunk]))| <= |LogOf(c, Flatten(chunks))| + EstimatedSizes(chunk)
  {
    assert (chunks + [chunk])[..|chunks|] == chunks;
    assert Flatten(chunks + [chunk]) == Flatten(chunks) + chunk;
    LogConcat(c, Flatten(chunks), chunk);
    LogWithinEstimate(c, chunk);
  }

  lemma AppendedSizes(c: Codec, o: Options, s: Segments, chunk: Chunk, size: nat)
    requires SizesOk(c, o, s) && size >= EstimatedSizes(chunk)
    requires s.size + EstimatedSizes(chunk) <= o.segmentSizeBytes || s.live[s.current] == []
    ensures SizesOk(c, o, Appended(s, chunk, size))
  {
    hide Flatten, LogOf, EstimatedSizes;
    var chunks := s.live[s.current];
    ChunkFits(c, chunks, chunk);
    assert SegmentOk(c, o, chunks + [chunk]);
    hide SegmentOk;
  }

  lemma AppendedConcat(s: Segments, chunk: Chunk, size: nat)
    requires IdsOk(s)
    ensures IdsOk(Appended(s, chunk, size))
    ensures Concat(Appended(s, chunk, size), FIRST_SEGMENT, s.current + 1) ==
            Concat(s, FIRST_SEGMENT, s.current + 1) + [chunk]
  {
    var s' := Appended(s, chunk, size);
    ConcatSame(s, s', FIRST_SEGMENT, s.current);
    assert SegmentAt(s', s.current) == SegmentAt(s, s.current) + [chunk];
  }

  lemma AppendedOk(c: Codec, o: Options, s: Segments, chunk: Chunk, size: nat)
    requires Inv(c, o, s) && size >= EstimatedSizes(chunk)
    requires s.size + EstimatedSizes(chunk) <= o.segmentSizeBytes || s.live[s.current] == []
    ensures var s' := Appended(s, chunk, size);
            && Inv(c, o, s') && s'.current == s.current
            && Concat(s', FIRST_SEGMENT, s.current + 1) == Concat(s, FIRST_SEGMENT, s.current + 1) + [chunk]
  {
    AppendedSizes(c, o, s, chunk, size);
    AppendedConcat(s, chunk, size);
    hide SizesOk, Concat, EstimatedSizes, IdsOk;
  }

  lemma CurrentIsLive(c: Codec, o: Options, s: Segments)
    requires Inv(c, o, s)
    ensures s.current in s.live
  {
  }

  lemma AppendOk(c: Codec, o: Options, s: Segments, chunk: Chunk, batch: bool)
    requires Inv(c, o, s)
    ensures var s' := Append(o, s, chunk, batch);
            && Inv(c, o, s')
            && Concat(s', FIRST_SEGMENT, s'.current + 1) == Concat(s, FIRST_SEGMENT, s.current + 1) + [chunk]
  {
    hide SizesOk, IdsOk, FewLive, Concat, Rotate, EstimatedSizes, Appended;
    var size := EstimatedSizes(chunk);
    CurrentIsLive(c, o, s);
    if s.size + size <= o.segmentSizeBytes {
      AppendedOk(c, o, s, chunk, size);
    } else {
      RotateOk(c, o, s);
      CurrentIsLive(c, o, Rotate(o, s));
      AppendedOk(c, o, Rotate(o, s), chunk, if batch then size + size else size);
    }
  }

  lemma ReopenOk(c: Codec, o: Options, s: Segments)
    requires Inv(c, o, s)
    ensures Inv(c, o, Reopen(c, s))
    ensures Reopen(c, s).current == s.current
    ensures Concat(Reopen(c, s), FIRST_SEGMENT, s.current + 1) == Concat(s, FIRST_SEGMENT, s.current + 1)
  {
    hide SegmentAt, SegmentOk, Flatten, LogOf, Concat;
    assert forall i :: SegmentAt(Reopen(c, s), i) == SegmentAt(s, i) by { SameSegments(s, Reopen(c, s)); }
    ConcatSame(s, Reopen(c, s), FIRST_SEGMENT, s.current + 1);
  }

  lemma SameSegments(s: Segments, s': Segments)
    requires s.live == s'.live && s.archived == s'.archived
    ensures forall i :: SegmentAt(s', i) == SegmentAt(s, i)
  {
  }

  // ---------------------------------------------------------------- main result

  lemma NewOk(c: Codec, o: Options)
    ensures Inv(c, o, NewSegments) && Concat(NewSegments, FIRST_SEGMENT, FIRST_SEGMENT + 1) == []
  {
    assert Flatten<Entry>([]) == [] && LogOf(c, []) == [];
  }

  /**
   Over every run: archived then live segments, by id, hold exactly what was appended, in order; the live
   ids are `first..=current` and, with an archive, at most one more than are kept; and every segment is
   within the size limit or holds a single append or batch.
   */
  lemma {:induction false} RunConserves(c: Codec, o: Options, ops: seq<Op>)
    ensures Inv(c, o, Run(c, o, ops))
    ensures Concat(Run(c, o, ops), FIRST_SEGMENT, Run(c, o, ops).current + 1) == History(o, ops)
  {
    hide Inv, Concat, Append, Reopen, Run, History, ChunkOf;
    if ops == [] {
      EmptyRun(c, o);
      NewOk(c, o);
    } else {
      var prefix, op := ops[..|ops| - 1], ops[|ops| - 1];
      RunConserves(c, o, prefix);
      var s := Run(c, o, prefix);
      CurrentIsLive(c, o, s);
      LastStep(c, o, ops);
      if op.OpReopen? {
        ReopenOk(c, o, s);
      } else {
        AppendOk(c, o, s, ChunkOf(o, op), op.OpBatch?);
      }
    }
  }

  /** Without an archive directory no segment is ever moved away. */
  lemma {:induction false} NothingArchived(c: Codec, o: Options, ops: seq<Op>)
    requires !o.hasArchive
    ensures Run(c, o, ops).first == FIRST_SEGMENT
  {
    hide LogOf, Flatten, ChunkOf, EstimatedSizes;
    if ops != [] {
      NothingArchived(c, o, ops[..|ops| - 1]);
    }
  }

  lemma {:induction false} ConcatSplit(s: Segments, lo: nat, mid: nat, hi: nat)
    requires lo <= mid <= hi
    ensures Concat(s, lo, hi) == Concat(s, lo, mid) + Concat(s, mid, hi)
    decreases hi
  {
    hide SegmentAt;
    if mid < hi {
      ConcatSplit(s, lo, mid, hi - 1);
    }
  }

  lemma EmptyRun(c: Codec, o: Options)
    ensures Run(c, o, []) == NewSegments && History(o, []) == []
  {
  }

  lemma LastStep(c: Codec, o: Options, ops: seq<Op>)
    requires ops != [] && Run(c, o, ops[..|ops| - 1]).current in Run(c, o, ops[..|ops| - 1]).live
    ensures var s, op := Run(c, o, ops[..|ops| - 1]), ops[|ops| - 1];
            && Run(c, o, ops) ==
               (if op.OpReopen? then Reopen(c, s) else Append(o, s, ChunkOf(o, op), op.OpBatch?))
            && History(o, ops) == History(o, ops[..|ops| - 1]) + (if op.OpReopen? then [] else [ChunkOf(o, op)])
  {
    hide Append, Reopen, ChunkOf;
  }
}
