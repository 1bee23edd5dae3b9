/**
 The log file of crabstash-storage/src/wal.rs: how records are framed, and how a log is read back. The
 checksum and the compressor are parameters.
 */
module Wal {
  import opened Bytes

  const COMPRESSION_FLAG: nat := 0x80
  const COMPRESSION_THRESHOLD: nat := 64

  datatype RecordType = Put | Delete

  datatype WalRecord = WalRecord(recordType: RecordType, key: bytes, value: Option<bytes>, timestamp: u64)

  /** Puts carry a value and deletes do not, and lengths fit their 32-bit fields. */
  predicate WellFormed(r: WalRecord) {
    && (r.recordType.Put? <==> r.value.Some?)
    && 17 + |r.key| + (if r.value.Some? then |r.value.value| else 0) < U32_MOD
  }

  /** CRC32 and LZ4, of which only that decompression undoes compression is used. */
  datatype Codec = Codec(crc: bytes -> u32, compress: bytes -> bytes, decompress: bytes -> Option<bytes>)

  ghost predicate GoodCodec(c: Codec) {
    forall b: bytes :: c.decompress(c.compress(b)) == Some(b)
  }

  datatype WalError = UnexpectedEof | Corruption | OutOfBounds

  datatype Result<T> = Ok(value: T) | Err(error: WalError)

  // ---------------------------------------------------------------- writing

  function ValueField(value: Option<bytes>): bytes {
    match value
    case Some(v) => U32ToLe(AsU32(|v|)) + v
    case None => []
  }

  function Payload(r: WalRecord): bytes {
    U64ToLe(r.timestamp) + (U32ToLe(AsU32(|r.key|)) + (r.key + ValueField(r.value)))
  }

  function TypeByte(t: RecordType): u8 {
    match t case Put => 1 case Delete => 2
  }

  function EncodeRecord(c: Codec, compression: bool, r: WalRecord): (b: bytes)
    ensures b != []
  {
    var payload := Payload(r);
    if compression && |payload| >= COMPRESSION_THRESHOLD && |c.compress(payload)| < |payload| then
      [TypeByte(r.recordType) + COMPRESSION_FLAG] + c.compress(payload)
    else
      [TypeByte(r.recordType)] + payload
  }

  function Frame(c: Codec, compression: bool, r: WalRecord): bytes {
    var buf := EncodeRecord(c, compression, r);
    U32ToLe(c.crc(buf)) + (U32ToLe(AsU32(|buf|)) + buf)
  }

  /** A record, and whether compression was on when it was written. */
  datatype Entry = Entry(record: WalRecord, compression: bool)

  function LogOf(c: Codec, entries: seq<Entry>): bytes {
    if entries == [] then [] else Frame(c, entries[0].compression, entries[0].record) + LogOf(c, entries[1..])
  }

  function Records(entries: seq<Entry>): seq<WalRecord> {
    seq(|entries|, i requires 0 <= i < |entries| => entries[i].record)
  }

  // ---------------------------------------------------------------- reading

  function DecodeValue(t: RecordType, key: bytes, timestamp: u64, rest: bytes): Result<WalRecord> {
    match t
    case Delete => Ok(WalRecord(Delete, key, None, timestamp))
    case Put =>
      if |rest| < 4 then Err(OutOfBounds)
      else if |rest| - 4 < U32FromLe(rest[..4]) then Err(OutOfBounds)
      else Ok(WalRecord(Put, key, Some(rest[4..][..U32FromLe(rest[..4])]), timestamp))
  }

  function DecodePayload(t: RecordType, payload: bytes): Result<WalRecord> {
    if |payload| < 12 then Err(OutOfBounds)
    else
      var timestamp := U64FromLe(payload[..8]);
      var keyLen := U32FromLe(payload[8..][..4]);
      var rest := payload[8..][4..];
      if |rest| < keyLen then Err(OutOfBounds)
      else DecodeValue(t, rest[..keyLen], timestamp, rest[keyLen..])
  }

  function DecodeRecord(c: Codec, decompress: bool, data: bytes): Result<WalRecord> {
    if data == [] then Err(OutOfBounds)
    else
      var kind: nat := data[0] % COMPRESSION_FLAG;
      if kind != 1 && kind != 2 then Err(Corruption)
      else
        var t := if kind == 1 then Put else Delete;
        if data[0] >= COMPRESSION_FLAG && decompress then
          match c.decompress(data[1..])
          case Some(payload) => DecodePayload(t, payload)
          case None => Err(Corruption)
        else DecodePayload(t, data[1..])
  }

  /** One frame off the front of a log: its record and what follows, or how reading ends. */
  datatype Read = Next(record: WalRecord, rest: bytes) | End | Failed(error: WalError)

  function ReadFrame(c: Codec, decompress: bool, log: bytes): (r: Read)
    ensures r.Next? ==> |r.rest| < |log|
  {
    if |log| < 8 then End
    else
      var checksum, len, rest := U32FromLe(log[..4]), U32FromLe(log[4..][..4]), log[4..][4..];
      if |rest| < len then Failed(UnexpectedEof)
      else if c.crc(rest[..len]) != checksum then Failed(Corruption)
      else
        match DecodeRecord(c, decompress, rest[..len])
        case Ok(record) => Next(record, rest[len..])
        case Err(e) => Failed(e)
  }

  function Recovered(c: Codec, decompress: bool, log: bytes): Result<seq<WalRecord>>
    decreases |log|
  {
    match ReadFrame(c, decompress, log)
    case End => Ok([])
    case Failed(e) => Err(e)
    case Next(record, rest) =>
      match Recovered(c, decompress, rest)
      case Ok(records) => Ok([record] + records)
      case Err(e) => Err(e)
  }

  // ---------------------------------------------------------------- records come back

  lemma ValueComesBack(r: WalRecord)
    requires WellFormed(r)
    ensures DecodeValue(r.recordType, r.key, r.timestamp, ValueField(r.value)) == Ok(r)
  {
    hide U32ToLe, U32FromLe;
    if r.value.Some? {
      var v := r.value.value;
      FieldComesBack(|v|, v);
      assert v[..|v|] == v;
    }
  }

  lemma PayloadComesBack(r: WalRecord)
    requires WellFormed(r)
    ensures DecodePayload(r.recordType, Payload(r)) == Ok(r)
  {
    hide U32ToLe, U32FromLe, U64ToLe, U64FromLe, DecodeValue, ValueField;
    var tail := r.key + ValueField(r.value);
    U64RoundTrip(r.timestamp);
    Split(U64ToLe(r.timestamp), U32ToLe(AsU32(|r.key|)) + tail);
    FieldComesBack(|r.key|, tail);
    Split(r.key, ValueField(r.value));
    ValueComesBack(r);
  }

  lemma PayloadFits(r: WalRecord)
    requires WellFormed(r)
    ensures |Payload(r)| + 1 < U32_MOD
  {
    hide U32ToLe, U64ToLe;
  }

  /** The tag byte tells the type of the record and whether its payload is compressed. */
  lemma TagIsRead(c: Codec, decompress: bool, t: RecordType, compressed: bool, data: bytes, payload: bytes)
    requires if compressed then decompress && c.decompress(data) == Some(payload) else data == payload
    ensures DecodeRecord(c, decompress, [TypeByte(t) + if compressed then COMPRESSION_FLAG else 0] + data) ==
            DecodePayload(t, payload)
  {
    hide DecodePayload;
    var tag: u8 := TypeByte(t) + if compressed then COMPRESSION_FLAG else 0;
    assert ([tag] + data)[1..] == data;
  }

  lemma RecordComesBack(c: Codec, compression: bool, decompress: bool, r: WalRecord)
    requires GoodCodec(c) && WellFormed(r) && (compression ==> decompress)
    ensures DecodeRecord(c, decompress, EncodeRecord(c, compression, r)) == Ok(r)
    ensures |EncodeRecord(c, compression, r)| < U32_MOD
  {
    hide DecodePayload, DecodeRecord, Payload;
    PayloadComesBack(r);
    PayloadFits(r);
    var payload := Payload(r);
    if compression && |payload| >= COMPRESSION_THRESHOLD && |c.compress(payload)| < |payload| {
      TagIsRead(c, decompress, r.recordType, true, c.compress(payload), payload);
    } else {
      TagIsRead(c, decompress, r.recordType, false, payload, payload);
    }
  }

  /** A frame at the front of a log is read back whole, and nothing after it is touched. */
  lemma FrameComesBack(c: Codec, compression: bool, decompress: bool, r: WalRecord, rest: bytes)
    requires GoodCodec(c) && WellFormed(r) && (compression ==> decompress)
    ensures ReadFrame(c, decompress, Frame(c, compression, r) + rest) == Next(r, rest)
  {
    hide U32ToLe, U32FromLe, EncodeRecord, DecodeRecord, GoodCodec, WellFormed;
    var buf := EncodeRecord(c, compression, r);
    var crc := c.crc(buf);
    RecordComesBack(c, compression, decompress, r);
    var log := Frame(c, compression, r) + rest;
    assert log == U32ToLe(crc) + (U32ToLe(AsU32(|buf|)) + (buf + rest));
    assert log[..4] == U32ToLe(crc) && U32FromLe(log[..4]) == crc by { FieldComesBack(crc, []); }
    assert log[4..] == U32ToLe(AsU32(|buf|)) + (buf + rest);
    FieldComesBack(|buf|, buf + rest);
    Split(buf, rest);
  }

  // ---------------------------------------------------------------- whole logs and their prefixes

  predicate Writable(entries: seq<Entry>, decompress: bool) {
    forall i :: 0 <= i < |entries| ==> WellFormed(entries[i].record) && (entries[i].compression ==> decompress)
  }

  /** How many whole frames the first `n` bytes of a log hold. */
  function WholeFrames(c: Codec, entries: seq<Entry>, n: nat): (k: nat)
    ensures k <= |entries|
  {
    if entries == [] then 0
    else
      var size := |Frame(c, entries[0].compression, entries[0].record)|;
      if n < size then 0 else 1 + WholeFrames(c, entries[1..], n - size)
  }

  /**
   What reading the first `n` bytes of a log gives, for every `n`: the records of the whole frames when
   the cut leaves less than a frame header behind them, and an error otherwise.
   */
  lemma {:induction false} PrefixRecovers(c: Codec, decompress: bool, entries: seq<Entry>, n: nat)
    requires GoodCodec(c) && Writable(entries, decompress) && n <= |LogOf(c, entries)|
    ensures var k := WholeFrames(c, entries, n);
            Recovered(c, decompress, LogOf(c, entries)[..n]) ==
            if n - |LogOf(c, entries[..k])| < 8 then Ok(Records(entries[..k])) else Err(UnexpectedEof)
    decreases |entries|
  {
    hide ReadFrame, Frame, WellFormed, GoodCodec;
    var log := LogOf(c, entries);
    assert Records([]) == [];
    if entries == [] {
      assert log[..n] == [] && entries[..0] == [];
      EmptyLogEnds(c, decompress);
    } else {
      var e := entries[0];
      var frame := Frame(c, e.compression, e.record);
      if n < |frame| {
        assert entries[..0] == [] && log[..n] == frame[..n];
        CutFrameFails(c, decompress, e, n);
      } else {
        PrefixRecovers(c, decompress, entries[1..], n - |frame|);
        FirstFrameRecovers(c, decompress, entries, n);
        FirstFrameCounts(c, entries, n);
        hide LogOf, Records, WholeFrames, Recovered;
      }
    }
  }

  lemma EmptyLogEnds(c: Codec, decompress: bool)
    ensures ReadFrame(c, decompress, []) == End
  {
  }

  lemma FirstFrameCounts(c: Codec, entries: seq<Entry>, n: nat)
    requires n <= |LogOf(c, entries)|
    requires entries != [] && n >= |Frame(c, entries[0].compression, entries[0].record)|
    ensures var e := entries[0];
            var m, k := n - |Frame(c, e.compression, e.record)|, WholeFrames(c, entries, n);
            && k > 0 && m <= |LogOf(c, entries[1..])| && k - 1 == WholeFrames(c, entries[1..], m)
            && |LogOf(c, entries[..k])| == n - m + |LogOf(c, entries[1..][..k - 1])|
            && Records(entries[..k]) == [e.record] + Records(entries[1..][..k - 1])
  {
    hide Frame;
    var k := WholeFrames(c, entries, n);
    assert entries[..k][1..] == entries[1..][..k - 1];
  }

  /** Reading past the first whole frame is reading the rest, with its record in front. */
  lemma FirstFrameRecovers(c: Codec, decompress: bool, entries: seq<Entry>, n: nat)
    requires GoodCodec(c) && Writable(entries, decompress) && n <= |LogOf(c, entries)|
    requires entries != [] && n >= |Frame(c, entries[0].compression, entries[0].record)|
    ensures var e := entries[0];
            var m := n - |Frame(c, e.compression, e.record)|;
            && m <= |LogOf(c, entries[1..])|
            && Recovered(c, decompress, LogOf(c, entries)[..n]) ==
               Following([e.record], Recovered(c, decompress, LogOf(c, entries[1..])[..m]))
  {
    var e := entries[0];
    var frame, rest := Frame(c, e.compression, e.record), LogOf(c, entries[1..]);
    var m := n - |frame|;
    assert LogOf(c, entries) == frame + rest;
    hide LogOf, WellFormed, GoodCodec;
    FrameComesBack(c, e.compression, decompress, e.record, rest[..m]);
    FrameByFrame(c, decompress, [], frame + rest[..m]);
    hide ReadFrame, Frame, Recovered;
    CutConcat(frame, rest, n);
    FollowingNothing(Recovered(c, decompress, frame + rest[..m]));
    assert [] + [e.record] == [e.record];
  }

  lemma CutConcat(a: bytes, b: bytes, n: nat)
    requires |a| <= n <= |a| + |b|
    ensures (a + b)[..n] == a + b[..n - |a|]
  {
  }

  lemma FollowingNothing(r: Result<seq<WalRecord>>)
    ensures Following([], r) == r
  {
    if r.Ok? {
      assert [] + r.value == r.value;
    }
  }

  lemma CutFrameFails(c: Codec, decompress: bool, e: Entry, n: nat)
    requires WellFormed(e.record) && n < |Frame(c, e.compression, e.record)|
    ensures ReadFrame(c, decompress, Frame(c, e.compression, e.record)[..n]) ==
            if n < 8 then End else Failed(UnexpectedEof)
  {
    hide U32ToLe, U32FromLe, EncodeRecord, DecodeRecord, WellFormed;
    var buf := EncodeRecord(c, e.compression, e.record);
    assert |buf| < U32_MOD by { EncodedFits(c, e.compression, e.record); }
    var cut := Frame(c, e.compression, e.record)[..n];
    if n >= 8 {
      FieldComesBack(|buf|, buf[..n - 8]);
      assert cut == U32ToLe(c.crc(buf)) + (U32ToLe(AsU32(|buf|)) + buf[..n - 8]);
      assert cut[4..] == U32ToLe(AsU32(|buf|)) + buf[..n - 8];
    }
  }

  lemma EncodedFits(c: Codec, compression: bool, r: WalRecord)
    requires WellFormed(r)
    ensures |EncodeRecord(c, compression, r)| < U32_MOD
  {
    assert |Payload(r)| + 1 < U32_MOD;
    hide Payload;
  }

  lemma {:induction false} WholeLogIsWhole(c: Codec, entries: seq<Entry>)
    ensures WholeFrames(c, entries, |LogOf(c, entries)|) == |entries|
  {
    hide Frame;
    if entries != [] {
      WholeLogIsWhole(c, entries[1..]);
    }
  }

  /** A whole log gives back exactly what was written. */
  lemma LogRecovers(c: Codec, decompress: bool, entries: seq<Entry>)
    requires GoodCodec(c) && Writable(entries, decompress)
    ensures Recovered(c, decompress, LogOf(c, entries)) == Ok(Records(entries))
  {
    hide Recovered, GoodCodec, Records;
    var log := LogOf(c, entries);
    PrefixRecovers(c, decompress, entries, |log|);
    WholeLogIsWhole(c, entries);
    assert log[..|log|] == log && entries[..|entries|] == entries;
  }

  /** Reading any byte prefix is an error or gives a prefix of the records. */
  lemma TornLogIsPrefix(c: Codec, decompress: bool, entries: seq<Entry>, n: nat)
    requires GoodCodec(c) && Writable(entries, decompress) && n <= |LogOf(c, entries)|
    ensures var r := Recovered(c, decompress, LogOf(c, entries)[..n]);
            r.Ok? ==> r.value <= Records(entries)
  {
    PrefixRecovers(c, decompress, entries, n);
  }

  lemma {:induction false} LogConcat(c: Codec, a: seq<Entry>, b: seq<Entry>)
    ensures LogOf(c, a + b) == LogOf(c, a) + LogOf(c, b)
    decreases |a|
  {
    hide Frame;
    if a == [] {
      assert a + b == b;
    } else {
      assert (a + b)[1..] == a[1..] + b;
      LogConcat(c, a[1..], b);
    }
  }

  // ---------------------------------------------------------------- damage

  /** Whatever follows whole frames is read after them. */
  lemma {:induction false} ReadsOn(c: Codec, decompress: bool, entries: seq<Entry>, rest: bytes)
    requires GoodCodec(c) && Writable(entries, decompress)
    ensures Recovered(c, decompress, LogOf(c, entries) + rest) ==
            Following(Records(entries), Recovered(c, decompress, rest))
    decreases |entries|
  {
    hide Frame, ReadFrame, WellFormed, GoodCodec;
    if entries == [] {
      assert LogOf(c, entries) + rest == rest;
      FollowingNothing(Recovered(c, decompress, rest));
    } else {
      var e := entries[0];
      var log := LogOf(c, entries[1..]) + rest;
      assert LogOf(c, entries) + rest == Frame(c, e.compression, e.record) + log;
      FrameComesBack(c, e.compression, decompress, e.record, log);
      ReadsOn(c, decompress, entries[1..], rest);
      FrameByFrame(c, decompress, [], LogOf(c, entries) + rest);
      FollowingNothing(Recovered(c, decompress, LogOf(c, entries) + rest));
      assert [] + [e.record] == [e.record] && [e.record] + Records(entries[1..]) == Records(entries);
      FollowingBoth([e.record], Records(entries[1..]), Recovered(c, decompress, rest));
    }
  }

  lemma FollowingBoth(a: seq<WalRecord>, b: seq<WalRecord>, r: Result<seq<WalRecord>>)
    ensures Following(a, Following(b, r)) == Following(a + b, r)
  {
    if r.Ok? {
      assert a + (b + r.value) == a + b + r.value;
    }
  }

  /** A body behind its checksum and its length. */
  function RawFrame(checksum: u32, body: bytes): bytes {
    U32ToLe(checksum) + (U32ToLe(AsU32(|body|)) + body)
  }

  /** Where the parts of such a frame are found. */
  lemma RawParts(checksum: u32, body: bytes, rest: bytes)
    requires |body| < U32_MOD
    ensures var log := RawFrame(checksum, body) + rest;
            && |log| >= 8 && U32FromLe(log[..4]) == checksum && U32FromLe(log[4..][..4]) == |body|
            && |body| <= |log[4..][4..]| && log[4..][4..][..|body|] == body
  {
    hide U32ToLe, U32FromLe;
    var log := RawFrame(checksum, body) + rest;
    FieldComesBack(checksum, U32ToLe(AsU32(|body|)) + (body + rest));
    FieldComesBack(|body|, body + rest);
    assert log == U32ToLe(checksum) + (U32ToLe(AsU32(|body|)) + (body + rest));
    Split(body, rest);
  }

  lemma BadTypeFails(c: Codec, decompress: bool, body: bytes)
    requires body != [] && body[0] !in {1, 2, 1 + COMPRESSION_FLAG, 2 + COMPRESSION_FLAG}
    ensures DecodeRecord(c, decompress, body) == Err(Corruption)
  {
    hide DecodePayload;
  }

  lemma DamagedFrameFails(c: Codec, decompress: bool, checksum: u32, body: bytes, rest: bytes)
    requires |body| < U32_MOD
    requires checksum != c.crc(body) || (body != [] && body[0] !in {1, 2, 1 + COMPRESSION_FLAG, 2 + COMPRESSION_FLAG})
    ensures ReadFrame(c, decompress, RawFrame(checksum, body) + rest) == Failed(Corruption)
  {
    hide U32FromLe, RawFrame, DecodeRecord;
    RawParts(checksum, body, rest);
    if checksum == c.crc(body) {
      BadTypeFails(c, decompress, body);
    }
  }

  /** A frame whose checksum is wrong, or whose type byte is unknown, ends recovery with an error. */
  lemma DamageIsFound(c: Codec, decompress: bool, entries: seq<Entry>, checksum: u32, body: bytes, rest: bytes)
    requires GoodCodec(c) && Writable(entries, decompress) && |body| < U32_MOD
    requires checksum != c.crc(body) || (body != [] && body[0] !in {1, 2, 1 + COMPRESSION_FLAG, 2 + COMPRESSION_FLAG})
    ensures Recovered(c, decompress, LogOf(c, entries) + (RawFrame(checksum, body) + rest)) == Err(Corruption)
  {
    hide RawFrame, GoodCodec, Writable, LogOf, ReadFrame;
    ReadsOn(c, decompress, entries, RawFrame(checksum, body) + rest);
    DamagedFrameFails(c, decompress, checksum, body, rest);
    hide Records;
  }

  /** The bytes of a put and of a delete, spelled out: checksum, length, type, timestamp, key and value. */
  lemma RecordLayout(c: Codec)
    ensures var body := [1, 2, 1, 0, 0, 0, 0, 0, 0, 1, 0, 0, 0, 7, 1, 0, 0, 0, 9];
            Frame(c, false, WalRecord(Put, [7], Some([9]), 0x102)) == U32ToLe(c.crc(body)) + ([19, 0, 0, 0] + body)
    ensures var body := [2, 2, 1, 0, 0, 0, 0, 0, 0, 1, 0, 0, 0, 7];
            Frame(c, false, WalRecord(Delete, [7], None, 0x102)) == U32ToLe(c.crc(body)) + ([14, 0, 0, 0] + body)
  {
    LayoutOf(c, WalRecord(Put, [7], Some([9]), 0x102), [1, 2, 1, 0, 0, 0, 0, 0, 0, 1, 0, 0, 0, 7, 1, 0, 0, 0, 9]);
    LayoutOf(c, WalRecord(Delete, [7], None, 0x102), [2, 2, 1, 0, 0, 0, 0, 0, 0, 1, 0, 0, 0, 7]);
  }

  lemma LayoutOf(c: Codec, r: WalRecord, body: bytes)
    requires [TypeByte(r.recordType)] + Payload(r) == body && |body| < 0x100
    ensures Frame(c, false, r) == U32ToLe(c.crc(body)) + ([|body|, 0, 0, 0] + body)
  {
    hide Payload;
    assert U32ToLe(AsU32(|body|)) == [|body|, 0, 0, 0];
  }

  // ---------------------------------------------------------------- the log file

  class Log {
    const codec: Codec
    const compression: bool
    var file: bytes
    var pendingBytes: nat
    /** Everything appended, in order, and how much of the file was there before. */
    ghost var entries: seq<Entry>
    ghost const inherited: nat

    /** A new, truncated file. */
    constructor Create(codec: Codec, compression: bool)
      ensures Valid() && file == [] && entries == [] && this.codec == codec && this.compression == compression
    {
      this.codec, this.compression := codec, compression;
      file, pendingBytes, entries, inherited := [], 0, [], 0;
    }

    /** An existing file, opened for appending. */
    constructor Open(codec: Codec, compression: bool, file: bytes, ghost entries: seq<Entry>)
      requires file == LogOf(codec, entries)
      ensures Valid() && this.file == file && this.entries == entries && this.codec == codec
      ensures this.compression == compression
    {
      this.codec, this.compression := codec, compression;
      this.file, this.pendingBytes, this.entries, this.inherited := file, 0, entries, |file|;
    }

    ghost predicate Valid()
      reads this
    {
      file == LogOf(codec, entries) && |file| == inherited + pendingBytes
    }

    method Append(r: WalRecord)
      requires Valid()
      modifies this
      ensures Valid() && entries == old(entries) + [Entry(r, compression)]
      ensures file == old(file) + Frame(codec, compression, r)
    {
      var buf := EncodeRecord(codec, compression, r);
      LogConcat(codec, entries, [Entry(r, compression)]);
      FrameIsLog(codec, Entry(r, compression));
      hide EncodeRecord, LogOf, U32ToLe;
      var checksum := codec.crc(buf);
      file := AppendThree(file, U32ToLe(checksum), U32ToLe(AsU32(|buf|)), buf);
      pendingBytes := pendingBytes + 8 + |buf|;
      entries := entries + [Entry(r, compression)];
    }

    method AppendBatch(records: seq<WalRecord>)
      requires Valid()
      modifies this
      ensures Valid() && entries == old(entries) + EntriesOf(records, compression)
    {
      hide LogOf, Frame;
      for i := 0 to |records|
        invariant Valid() && entries == old(entries) + EntriesOf(records[..i], compression)
      {
        EntriesOneMore(records, i, compression);
        hide EntriesOf;
        Append(records[i]);
      }
      assert records[..|records|] == records;
    }
  }

  function EntriesOf(records: seq<WalRecord>, compression: bool): seq<Entry> {
    seq(|records|, i requires 0 <= i < |records| => Entry(records[i], compression))
  }

  lemma EntriesOneMore(records: seq<WalRecord>, i: nat, compression: bool)
    requires i < |records|
    ensures EntriesOf(records[..i + 1], compression) ==
            EntriesOf(records[..i], compression) + [Entry(records[i], compression)]
  {
  }

  /** Three writes in a row. */
  function AppendThree(a: bytes, b: bytes, c: bytes, d: bytes): (r: bytes)
    ensures r == a + (b + (c + d))
  {
    a + b + c + d
  }

  lemma FrameIsLog(c: Codec, e: Entry)
    ensures LogOf(c, [e]) == Frame(c, e.compression, e.record)
  {
    hide Frame;
    assert LogOf(c, [e][1..]) == [];
  }

  /** A result, after records already read. */
  function Following(records: seq<WalRecord>, r: Result<seq<WalRecord>>): Result<seq<WalRecord>> {
    match r
    case Ok(rs) => Ok(records + rs)
    case Err(e) => Err(e)
  }

  lemma FrameByFrame(c: Codec, decompress: bool, records: seq<WalRecord>, log: bytes)
    ensures Following(records, Recovered(c, decompress, log)) ==
            match ReadFrame(c, decompress, log)
            case End => Ok(records)
            case Failed(e) => Err(e)
            case Next(record, rest) => Following(records + [record], Recovered(c, decompress, rest))
  {
    hide ReadFrame;
    match ReadFrame(c, decompress, log)
    case End => assert records + [] == records;
    case Failed(_) =>
    case Next(record, rest) =>
      if Recovered(c, decompress, rest).Ok? {
        var rs := Recovered(c, decompress, rest).value;
        assert records + [record] + rs == records + ([record] + rs);
      }
  }

  /** `recover`: frame after frame until a header is missing. */
  method Recover(c: Codec, decompress: bool, file: bytes) returns (r: Result<seq<WalRecord>>)
    ensures r == Recovered(c, decompress, file)
  {
    var records: seq<WalRecord> := [];
    var reader := file;
    FollowingNothing(Recovered(c, decompress, file));
    while true
      invariant Recovered(c, decompress, file) == Following(records, Recovered(c, decompress, reader))
      decreases |reader|
    {
      FrameByFrame(c, decompress, records, reader);
      hide Recovered, DecodeRecord, Following;
      if |reader| < 8 {
        return Ok(records);
      }
      var checksum, len := U32FromLe(reader[..4]), U32FromLe(reader[4..][..4]);
      var rest := reader[4..][4..];
      if |rest| < len {
        return Err(UnexpectedEof);
      }
      var data := rest[..len];
      if c.crc(data) != checksum {
        return Err(Corruption);
      }
      var decoded := DecodeRecord(c, decompress, data);
      if decoded.Err? {
        return Err(decoded.error);
      }
      records := records + [decoded.value];
      reader := rest[len..];
    }
  }
}
