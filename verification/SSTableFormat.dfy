/**
 The table file of crabstash-storage/src/sstable.rs: how entries, blocks and metadata are laid out, and
 how each is parsed back. Checksum and compressor are parameters.
 */
module SSTableFormat {
  import opened Bytes

  const SSTABLE_MAGIC: u32 := 0x53535442
  const BLOCK_SIZE: nat := 4096

  /** An entry; `None` is a tombstone. */
  datatype Item = Item(key: bytes, value: Option<bytes>)

  datatype CompressionType = Uncompressed | Lz4 {
    function ToU8(): u8 {
      match this case Uncompressed => 0 case Lz4 => 1
    }
  }

  function CompressionFromU8(v: u8): CompressionType {
    if v == 1 then Lz4 else Uncompressed
  }

  /** CRC32, and LZ4 without a size prefix: decompression is told the length. */
  datatype Codec = Codec(crc: bytes -> u32, compress: bytes -> bytes, decompress: (bytes, nat) -> Option<bytes>)

  ghost predicate GoodCodec(c: Codec) {
    forall b: bytes {:trigger c.compress(b)} :: c.decompress(c.compress(b), |b|) == Some(b)
  }

  datatype TableError = UnexpectedEof | Corruption | OutOfBounds

  datatype Result<T> = Ok(value: T) | Err(error: TableError)

  // ---------------------------------------------------------------- entries

  /** Lengths fit their 32-bit fields, and a value is not as long as the tombstone mark. */
  predicate Fits(item: Item) {
    |item.key| < U32_MOD && (item.value.Some? ==> |item.value.value| < U32_MAX)
  }

  function EncodeValue(value: Option<bytes>): bytes {
    match value
    case Some(v) => U32ToLe(AsU32(|v|)) + v
    case None => U32ToLe(U32_MAX)
  }

  function EncodeItem(item: Item): (b: bytes)
    ensures |b| >= 8
  {
    U32ToLe(AsU32(|item.key|)) + (item.key + EncodeValue(item.value))
  }

  function BlockOf(items: seq<Item>): bytes {
    if items == [] then [] else EncodeItem(items[0]) + BlockOf(items[1..])
  }

  /** The entry at the front of a block, and what follows it. */
  function ParseItem(buf: bytes): (r: Option<(Item, bytes)>)
    ensures r.Some? ==> |r.value.1| < |buf|
  {
    if |buf| < 4 then None
    else
      var keyLen, rest := U32FromLe(buf[..4]), buf[4..];
      if |rest| < keyLen then None
      else ParseValue(rest[..keyLen], rest[keyLen..])
  }

  function ParseValue(key: bytes, buf: bytes): (r: Option<(Item, bytes)>)
    ensures r.Some? ==> |r.value.1| <= |buf|
  {
    if |buf| < 4 then None
    else
      var valueLen, rest := U32FromLe(buf[..4]), buf[4..];
      if valueLen == U32_MAX then Some((Item(key, None), rest))
      else if |rest| < valueLen then None
      else Some((Item(key, Some(rest[..valueLen])), rest[valueLen..]))
  }

  lemma ValueComesBack(item: Item, rest: bytes)
    requires Fits(item)
    ensures ParseValue(item.key, EncodeValue(item.value) + rest) == Some((item, rest))
  {
    hide U32ToLe, U32FromLe;
    match item.value
    case Some(v) =>
      assert EncodeValue(item.value) + rest == U32ToLe(AsU32(|v|)) + (v + rest);
      FieldComesBack(|v|, v + rest);
      Split(v, rest);
    case None =>
      FieldComesBack(U32_MAX, rest);
  }

  /** An encoded entry is parsed back, whatever follows it. */
  lemma ItemComesBack(item: Item, rest: bytes)
    requires Fits(item)
    ensures ParseItem(EncodeItem(item) + rest) == Some((item, rest))
  {
    var value := EncodeValue(item.value);
    ValueComesBack(item, rest);
    hide U32ToLe, U32FromLe, ParseValue, EncodeValue;
    assert EncodeItem(item) + rest == U32ToLe(AsU32(|item.key|)) + (item.key + (value + rest));
    FieldComesBack(|item.key|, item.key + (value + rest));
    Split(item.key, value + rest);
  }

  lemma {:induction false} BlockConcat(a: seq<Item>, b: seq<Item>)
    ensures BlockOf(a + b) == BlockOf(a) + BlockOf(b)
    decreases |a|
  {
    hide EncodeItem;
    if a == [] {
      assert a + b == b;
    } else {
      assert (a + b)[1..] == a[1..] + b;
      BlockConcat(a[1..], b);
    }
  }

  lemma BlockOfOne(item: Item)
    ensures BlockOf([item]) == EncodeItem(item)
  {
    assert BlockOf([item][1..]) == [];
  }

  // ---------------------------------------------------------------- looking a key up

  /** The value of the first entry of a key. */
  function LookupItem(items: seq<Item>, key: bytes): Option<bytes> {
    if items == [] then None
    else if items[0].key == key then items[0].value
    else LookupItem(items[1..], key)
  }

  /** The answer of `search_block`. */
  function Search(block: bytes, key: bytes): Result<Option<bytes>>
    decreases |block|
  {
    if block == [] then Ok(None)
    else
      match ParseItem(block)
      case None => Err(OutOfBounds)
      case Some((item, rest)) => if item.key == key then Ok(item.value) else Search(rest, key)
  }

  predicate AllFit(items: seq<Item>) {
    forall i :: 0 <= i < |items| ==> Fits(items[i])
  }

  lemma {:induction false} SearchFinds(items: seq<Item>, key: bytes)
    requires AllFit(items)
    ensures Search(BlockOf(items), key) == Ok(LookupItem(items, key))
  {
    hide EncodeItem, ParseItem, Fits;
    if items != [] {
      ItemComesBack(items[0], BlockOf(items[1..]));
      SearchFinds(items[1..], key);
    }
  }

  // ---------------------------------------------------------------- stored blocks

  function CompressBlock(c: Codec, kind: CompressionType, data: bytes): bytes {
    match kind case Uncompressed => data case Lz4 => c.compress(data)
  }

  function DecompressBlock(c: Codec, kind: CompressionType, data: bytes, length: nat): Result<bytes> {
    match kind
    case Uncompressed => Ok(data)
    case Lz4 => match c.decompress(data, length) case Some(b) => Ok(b) case None => Err(Corruption)
  }

  /** A block as `flush_block` writes it: compressed, with its checksum behind. */
  function StoredBlock(c: Codec, kind: CompressionType, block: bytes): bytes {
    var data := CompressBlock(c, kind, block);
    data + U32ToLe(c.crc(data))
  }

  datatype BlockMeta = BlockMeta(offset: u64, length: u32, uncompressedLength: u32, firstKey: bytes, lastKey: bytes)

  /** `read_block_from_disk`. */
  function ReadBlock(c: Codec, kind: CompressionType, file: bytes, meta: BlockMeta): Result<bytes> {
    if meta.length > 0 && meta.offset + meta.length > |file| then Err(UnexpectedEof)
    else if meta.length < 4 then Err(OutOfBounds)
    else
      var stored := file[meta.offset..][..meta.length];
      var data, sum := stored[..|stored| - 4], stored[|stored| - 4..];
      if U32FromLe(sum) != c.crc(data) then Err(Corruption)
      else DecompressBlock(c, kind, data, meta.uncompressedLength)
  }

  /** The stored form of `block` lies in the file where the metadata says. */
  predicate StoredAt(c: Codec, kind: CompressionType, file: bytes, meta: BlockMeta, block: bytes) {
    && meta.offset + meta.length <= |file|
    && file[meta.offset..][..meta.length] == StoredBlock(c, kind, block)
    && meta.uncompressedLength == |block|
  }

  lemma StoredBlockComesBack(c: Codec, kind: CompressionType, file: bytes, meta: BlockMeta, block: bytes)
    requires GoodCodec(c) && StoredAt(c, kind, file, meta, block)
    ensures ReadBlock(c, kind, file, meta) == Ok(block)
  {
    var data := CompressBlock(c, kind, block);
    U32RoundTrip(c.crc(data));
    hide U32ToLe, U32FromLe;
    Split(data, U32ToLe(c.crc(data)));
  }

  /** A stored block whose checksum does not match is refused. */
  lemma DamagedBlockIsFound(c: Codec, kind: CompressionType, file: bytes, meta: BlockMeta, data: bytes, sum: u32)
    requires meta.offset + meta.length <= |file| && file[meta.offset..][..meta.length] == data + U32ToLe(sum)
    requires sum != c.crc(data)
    ensures ReadBlock(c, kind, file, meta) == Err(Corruption)
  {
    U32RoundTrip(sum);
    hide U32ToLe, U32FromLe;
    Split(data, U32ToLe(sum));
  }

  /** The bytes of an entry and of a tombstone, spelled out. */
  lemma ItemLayout()
    ensures EncodeItem(Item([7], Some([9]))) == [1, 0, 0, 0, 7, 1, 0, 0, 0, 9]
    ensures EncodeItem(Item([7], None)) == [1, 0, 0, 0, 7, 255, 255, 255, 255]
  {
    assert U32ToLe(1) == [1, 0, 0, 0] && U32ToLe(U32_MAX) == [255, 255, 255, 255];
    hide U32ToLe;
  }

  // ---------------------------------------------------------------- metadata

  datatype Metadata = Metadata(kind: CompressionType, metas: seq<BlockMeta>, numHashes: u32, bits: bytes)

  /** A byte string with its length in front. */
  function EncodeField(b: bytes): bytes {
    U32ToLe(AsU32(|b|)) + b
  }

  function EncodeMeta(m: BlockMeta): bytes {
    U64ToLe(m.offset)
        + (U32ToLe(m.length) + (U32ToLe(m.uncompressedLength) + (EncodeField(m.firstKey) + EncodeField(m.lastKey))))
  }

  function EncodeMetas(metas: seq<BlockMeta>): bytes {
    if metas == [] then [] else EncodeMeta(metas[0]) + EncodeMetas(metas[1..])
  }

  function EncodeMetadata(md: Metadata): bytes {
    [md.kind.ToU8()]
        + (U32ToLe(AsU32(|md.metas|)) + (EncodeMetas(md.metas) + (U32ToLe(md.numHashes) + EncodeField(md.bits))))
  }

  function TakeU32(buf: bytes): Option<(u32, bytes)> {
    if |buf| < 4 then None else Some((U32FromLe(buf[..4]), buf[4..]))
  }

  function TakeU64(buf: bytes): Option<(u64, bytes)> {
    if |buf| < 8 then None else Some((U64FromLe(buf[..8]), buf[8..]))
  }

  function TakeField(buf: bytes): Option<(bytes, bytes)> {
    match TakeU32(buf)
    case None => None
    case Some((len, rest)) => if |rest| < len then None else Some((rest[..len], rest[len..]))
  }

  function ParseKeys(offset: u64, length: u32, uncompressedLength: u32, buf: bytes): Option<(BlockMeta, bytes)> {
    match TakeField(buf)
    case None => None
    case Some((firstKey, rest)) =>
      match TakeField(rest)
      case None => None
      case Some((lastKey, rest')) => Some((BlockMeta(offset, length, uncompressedLength, firstKey, lastKey), rest'))
  }

  function ParseMeta(buf: bytes): Option<(BlockMeta, bytes)> {
    match TakeU64(buf)
    case None => None
    case Some((offset, rest)) =>
      match TakeU32(rest)
      case None => None
      case Some((length, rest')) =>
        match TakeU32(rest')
        case None => None
        case Some((uncompressedLength, rest'')) => ParseKeys(offset, length, uncompressedLength, rest'')
  }

  function ParseMetas(buf: bytes, n: nat): Option<(seq<BlockMeta>, bytes)> {
    if n == 0 then Some(([], buf))
    else
      match ParseMeta(buf)
      case None => None
      case Some((m, rest)) =>
        match ParseMetas(rest, n - 1)
        case None => None
        case Some((ms, rest')) => Some(([m] + ms, rest'))
  }

  function ParseBloom(kind: CompressionType, metas: seq<BlockMeta>, buf: bytes): Option<Metadata> {
    match TakeU32(buf)
    case None => None
    case Some((numHashes, rest)) =>
      match TakeField(rest)
      case None => None
      case Some((bits, _)) => Some(Metadata(kind, metas, numHashes, bits))
  }

  /** `decode_metadata`. */
  function DecodeMetadata(data: bytes): Option<Metadata> {
    if data == [] then None
    else
      match TakeU32(data[1..])
      case None => None
      case Some((n, rest)) =>
        match ParseMetas(rest, n)
        case None => None
        case Some((metas, rest')) => ParseBloom(CompressionFromU8(data[0]), metas, rest')
  }

  predicate KeysFit(m: BlockMeta) {
    |m.firstKey| < U32_MOD && |m.lastKey| < U32_MOD
  }

  predicate MetadataFits(md: Metadata) {
    |md.metas| < U32_MOD && |md.bits| < U32_MOD && forall i :: 0 <= i < |md.metas| ==> KeysFit(md.metas[i])
  }

  lemma U32Taken(n: u32, rest: bytes)
    ensures TakeU32(U32ToLe(n) + rest) == Some((n, rest))
  {
    FieldComesBack(n, rest);
    hide U32ToLe, U32FromLe;
  }

  lemma U64Taken(n: u64, rest: bytes)
    ensures TakeU64(U64ToLe(n) + rest) == Some((n, rest))
  {
    U64RoundTrip(n);
    hide U64ToLe, U64FromLe;
    Split(U64ToLe(n), rest);
  }

  lemma FieldTaken(b: bytes, rest: bytes)
    requires |b| < U32_MOD
    ensures TakeField(EncodeField(b) + rest) == Some((b, rest))
  {
    assert EncodeField(b) + rest == U32ToLe(AsU32(|b|)) + (b + rest);
    U32Taken(AsU32(|b|), b + rest);
    hide U32ToLe, TakeU32;
    Split(b, rest);
  }

  lemma MetaComesBack(m: BlockMeta, rest: bytes)
    requires KeysFit(m)
    ensures ParseMeta(EncodeMeta(m) + rest) == Some((m, rest))
  {
    hide U32ToLe, U64ToLe, TakeU32, TakeU64, TakeField, EncodeField;
    var keys := EncodeField(m.firstKey) + (EncodeField(m.lastKey) + rest);
    assert EncodeMeta(m) + rest == U64ToLe(m.offset) + (U32ToLe(m.length) + (U32ToLe(m.uncompressedLength) + keys));
    U64Taken(m.offset, U32ToLe(m.length) + (U32ToLe(m.uncompressedLength) + keys));
    U32Taken(m.length, U32ToLe(m.uncompressedLength) + keys);
    U32Taken(m.uncompressedLength, keys);
    FieldTaken(m.firstKey, EncodeField(m.lastKey) + rest);
    FieldTaken(m.lastKey, rest);
  }

  lemma {:induction false} MetasComeBack(metas: seq<BlockMeta>, rest: bytes)
    requires forall i :: 0 <= i < |metas| ==> KeysFit(metas[i])
    ensures ParseMetas(EncodeMetas(metas) + rest, |metas|) == Some((metas, rest))
  {
    hide EncodeMeta, ParseMeta, KeysFit;
    if metas == [] {
      assert EncodeMetas(metas) + rest == rest;
    } else {
      assert EncodeMetas(metas) + rest == EncodeMeta(metas[0]) + (EncodeMetas(metas[1..]) + rest);
      MetaComesBack(metas[0], EncodeMetas(metas[1..]) + rest);
      MetasComeBack(metas[1..], rest);
      assert [metas[0]] + metas[1..] == metas;
    }
  }

  lemma BloomComesBack(md: Metadata)
    requires MetadataFits(md)
    ensures ParseBloom(md.kind, md.metas, U32ToLe(md.numHashes) + EncodeField(md.bits)) == Some(md)
  {
    hide U32ToLe, TakeU32, TakeField, EncodeField;
    U32Taken(md.numHashes, EncodeField(md.bits));
    assert EncodeField(md.bits) + [] == EncodeField(md.bits);
    FieldTaken(md.bits, []);
  }

  lemma MetadataComesBack(md: Metadata)
    requires MetadataFits(md)
    ensures DecodeMetadata(EncodeMetadata(md)) == Some(md)
  {
    hide U32ToLe, TakeU32, EncodeField, EncodeMetas, ParseMetas, ParseBloom, KeysFit;
    var bloom := U32ToLe(md.numHashes) + EncodeField(md.bits);
    var data := EncodeMetadata(md);
    assert data[1..] == U32ToLe(AsU32(|md.metas|)) + (EncodeMetas(md.metas) + bloom);
    U32Taken(AsU32(|md.metas|), EncodeMetas(md.metas) + bloom);
    MetasComeBack(md.metas, bloom);
    BloomComesBack(md);
  }

  // ---------------------------------------------------------------- the file

  function TableFile(body: bytes, md: Metadata): bytes {
    body + (EncodeMetadata(md) + (U64ToLe(|body| % U64_MOD) + U32ToLe(SSTABLE_MAGIC)))
  }

  /** `SSTable::open`. */
  function OpenTable(file: bytes): Result<Metadata> {
    if |file| < 4 then Err(UnexpectedEof)
    else if U32FromLe(file[|file| - 4..]) != SSTABLE_MAGIC then Err(Corruption)
    else if |file| < 12 then Err(UnexpectedEof)
    else
      var metaOffset := U64FromLe(file[|file| - 12..][..8]);
      if metaOffset + 12 > |file| then Err(OutOfBounds)
      else
        match DecodeMetadata(file[metaOffset..][..|file| - metaOffset - 12])
        case Some(md) => Ok(md)
        case None => Err(OutOfBounds)
  }

  lemma TableOpens(body: bytes, md: Metadata)
    requires MetadataFits(md) && |body| < U64_MOD
    ensures OpenTable(TableFile(body, md)) == Ok(md)
  {
    hide TableFile, OpenTable, U32ToLe, U32FromLe, U64ToLe, U64FromLe, EncodeMetadata, DecodeMetadata, MetadataFits;
    MetadataComesBack(md);
    U32RoundTrip(SSTABLE_MAGIC);
    U64RoundTrip(|body|);
    FileFooter(body, md);
    OpensAs(TableFile(body, md), |body|, md);
  }

  lemma FileFooter(body: bytes, md: Metadata)
    requires |body| < U64_MOD
    ensures var file := TableFile(body, md);
            && |file| == |body| + |EncodeMetadata(md)| + 12
            && file[|file| - 4..] == U32ToLe(SSTABLE_MAGIC) && file[|file| - 12..][..8] == U64ToLe(|body|)
            && file[|body|..][..|file| - |body| - 12] == EncodeMetadata(md)
  {
    hide U32ToLe, U64ToLe, EncodeMetadata;
    Footer(body, EncodeMetadata(md), U64ToLe(|body|), U32ToLe(SSTABLE_MAGIC));
  }

  lemma OpensAs(file: bytes, metaOffset: u64, md: Metadata)
    requires metaOffset + 12 <= |file| && U32FromLe(file[|file| - 4..]) == SSTABLE_MAGIC
    requires U64FromLe(file[|file| - 12..][..8]) == metaOffset
    requires DecodeMetadata(file[metaOffset..][..|file| - metaOffset - 12]) == Some(md)
    ensures OpenTable(file) == Ok(md)
  {
    hide U32FromLe, U64FromLe, DecodeMetadata;
  }

  lemma Footer(body: bytes, meta: bytes, offset: bytes, magic: bytes)
    requires |offset| == 8 && |magic| == 4
    ensures var file := body + (meta + (offset + magic));
            && |file| == |body| + |meta| + 12
            && file[|file| - 4..] == magic && file[|file| - 12..][..8] == offset
            && file[|body|..][..|meta|] == meta
  {
  }

  /** A file that does not end in the magic number is refused, and so is one whose metadata would start behind it. */
  lemma DamagedFileIsFound(body: bytes, offset: u64, magic: u32)
    ensures magic != SSTABLE_MAGIC ==> OpenTable(body + (U64ToLe(offset) + U32ToLe(magic))) == Err(Corruption)
    ensures magic == SSTABLE_MAGIC && offset > |body| ==>
              OpenTable(body + (U64ToLe(offset) + U32ToLe(magic))) == Err(OutOfBounds)
  {
    hide U32ToLe, U32FromLe, U64ToLe, U64FromLe, DecodeMetadata;
    U32RoundTrip(magic);
    U64RoundTrip(offset);
    Footer(body, [], U64ToLe(offset), U32ToLe(magic));
    assert [] + (U64ToLe(offset) + U32ToLe(magic)) == U64ToLe(offset) + U32ToLe(magic);
  }
}
