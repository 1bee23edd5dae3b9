/**
 Building table files (crabstash-storage/src/sstable.rs): entries are cut into blocks in order, and the
 finished file opens and holds what was added.
 */
module SSTables {
  import opened Bytes
  import opened Sequences
  import opened SSTableFormat
  import StorageBloom

  type Blocks = seq<seq<Item>>

  predicate Ascending(items: seq<Item>) {
    forall i, j :: 0 <= i < j < |items| ==> Lt(items[i].key, items[j].key)
  }

  predicate NonDescending(items: seq<Item>) {
    forall i, j :: 0 <= i < j < |items| ==> Le(items[i].key, items[j].key)
  }

  lemma AscendingIsNonDescending(items: seq<Item>)
    requires Ascending(items)
    ensures NonDescending(items)
  {
    LtIsStrictTotalOrder();
  }

  // ---------------------------------------------------------------- what a table holds

  /** Block `i` of the file: where it lies, and the key it starts with. */
  predicate BlockAt(c: Codec, kind: CompressionType, file: bytes, meta: BlockMeta, block: seq<Item>) {
    && block != [] && AllFit(block)
    && StoredAt(c, kind, file, meta, BlockOf(block))
    && meta.firstKey == block[0].key && KeysFit(meta)
  }

  predicate BodyOk(c: Codec, kind: CompressionType, file: bytes, metas: seq<BlockMeta>, blocks: Blocks) {
    && |metas| == |blocks|
    && forall i :: 0 <= i < |blocks| ==> BlockAt(c, kind, file, metas[i], blocks[i])
  }

  predicate KeysHeld(hash: StorageBloom.KeyHash, bits: bytes, numHashes: nat, items: seq<Item>)
    requires bits != []
  {
    forall i :: 0 <= i < |items| ==> StorageBloom.MayContain(bits, numHashes, hash(items[i].key))
  }

  /** An opened file whose metadata describes exactly these blocks. */
  predicate Holds(c: Codec, hash: StorageBloom.KeyHash, file: bytes, md: Metadata, blocks: Blocks) {
    && BodyOk(c, md.kind, file, md.metas, blocks)
    && md.bits != [] && KeysHeld(hash, md.bits, md.numHashes, Flatten(blocks))
  }

  lemma StoredLonger(c: Codec, kind: CompressionType, file: bytes, more: bytes, metas: seq<BlockMeta>, blocks: Blocks)
    requires BodyOk(c, kind, file, metas, blocks)
    ensures BodyOk(c, kind, file + more, metas, blocks)
  {
    hide AllFit, BlockOf, StoredBlock;
    forall i | 0 <= i < |blocks| ensures BlockAt(c, kind, file + more, metas[i], blocks[i]) {
      assert BlockAt(c, kind, file, metas[i], blocks[i]);
      SliceOfLonger(file, more, metas[i].offset, metas[i].length);
    }
  }

  lemma SliceOfLonger(a: bytes, b: bytes, offset: nat, length: nat)
    requires offset + length <= |a|
    ensures (a + b)[offset..][..length] == a[offset..][..length]
  {
  }

  lemma StoredAtEnd(c: Codec, kind: CompressionType, file: bytes, block: bytes, meta: BlockMeta)
    requires meta.offset == |file| && meta.length == |StoredBlock(c, kind, block)| && meta.uncompressedLength == |block|
    ensures StoredAt(c, kind, file + StoredBlock(c, kind, block), meta, block)
  {
    hide StoredBlock;
  }

  // ---------------------------------------------------------------- builder

  /** The stored form of a block fits the 32-bit and 64-bit fields that describe it. */
  predicate Room(c: Codec, kind: CompressionType, fileSize: nat, block: bytes) {
    && |block| < U32_MOD && |StoredBlock(c, kind, block)| < U32_MOD
    && fileSize + |StoredBlock(c, kind, block)| < U64_MOD
  }

  /** The length of the file, the blocks in it, and the entries of the block that is still open. */
  datatype Layout = Layout(size: nat, blocks: Blocks, open: seq<Item>)

  /** One entry more; a block that reaches the limit is closed. */
  function AddTo(c: Codec, kind: CompressionType, l: Layout, item: Item): Layout {
    var open := l.open + [item];
    if |BlockOf(open)| < BLOCK_SIZE then l.(open := open)
    else Layout(l.size + |StoredBlock(c, kind, BlockOf(open))|, l.blocks + [open], [])
  }

  function LayoutOf(c: Codec, kind: CompressionType, items: seq<Item>): Layout {
    if items == [] then Layout(0, [], [])
    else AddTo(c, kind, LayoutOf(c, kind, items[..|items| - 1]), items[|items| - 1])
  }

  /** The blocks of the finished file. */
  function BlocksOf(c: Codec, kind: CompressionType, items: seq<Item>): Blocks {
    var l := LayoutOf(c, kind, items);
    if l.open == [] then l.blocks else l.blocks + [l.open]
  }

  /** Every entry, and every block with it, fits the fields of the format. */
  predicate RoomForAll(c: Codec, kind: CompressionType, items: seq<Item>) {
    forall i :: 0 <= i < |items| ==>
      var l := LayoutOf(c, kind, items[..i]);
      Fits(items[i]) && Room(c, kind, l.size, BlockOf(l.open + [items[i]]))
  }

  /** The layout holds what was added, in order. */
  lemma {:induction false} LayoutHolds(c: Codec, kind: CompressionType, items: seq<Item>)
    ensures var l := LayoutOf(c, kind, items);
            Flatten(l.blocks) + l.open == items && |l.blocks| <= |items|
    ensures Flatten(BlocksOf(c, kind, items)) == items
  {
    hide BlockOf, StoredBlock, Flatten;
    if items == [] {
      assert Flatten<Item>([]) == [] by { NoBlocks(); }
    } else {
      var init, last := items[..|items| - 1], items[|items| - 1];
      LayoutHolds(c, kind, init);
      var l := LayoutOf(c, kind, init);
      FlattenOneMore(l.blocks, l.open + [last]);
      assert Flatten(l.blocks) + (l.open + [last]) == init + [last];
      assert init + [last] == items;
    }
    var l := LayoutOf(c, kind, items);
    FlattenOneMore(l.blocks, l.open);
    assert l.open == [] ==> Flatten(l.blocks) + l.open == Flatten(l.blocks);
  }

  /** A block is closed by the entry that makes it reach the limit, and by no earlier one. */
  predicate CutHere(block: seq<Item>) {
    block != [] && |BlockOf(block)| >= 4096 && |BlockOf(block[..|block| - 1])| < 4096
  }

  /** Every block of a file but the last is cut where it reaches 4096 bytes, and the last did not get there. */
  lemma {:induction false} BlocksAreCut(c: Codec, kind: CompressionType, items: seq<Item>)
    ensures var blocks := BlocksOf(c, kind, items);
            && (forall i :: 0 <= i < |blocks| - 1 ==> CutHere(blocks[i]))
            && (blocks != [] ==>
                  CutHere(blocks[|blocks| - 1]) || 0 < |BlockOf(blocks[|blocks| - 1])| < 4096)
  {
    hide BlockOf, LayoutOf;
    LayoutIsCut(c, kind, items);
    var l := LayoutOf(c, kind, items);
    BlockEmptyIff(l.open);
  }

  lemma {:induction false} LayoutIsCut(c: Codec, kind: CompressionType, items: seq<Item>)
    ensures var l := LayoutOf(c, kind, items);
            (forall i :: 0 <= i < |l.blocks| ==> CutHere(l.blocks[i])) && |BlockOf(l.open)| < 4096
  {
    hide StoredBlock, BlockOf;
    BlockEmptyIff([]);
    if items != [] {
      LayoutIsCut(c, kind, items[..|items| - 1]);
      var l := LayoutOf(c, kind, items[..|items| - 1]);
      var open := l.open + [items[|items| - 1]];
      assert open[..|open| - 1] == l.open;
    }
  }

  lemma NoBlocks()
    ensures Flatten<Item>([]) == []
  {
  }

  /** Compresses a block, puts its checksum behind it and writes it to the end of the file. */
  method StoreBlock(c: Codec, kind: CompressionType, file: bytes, metas: seq<BlockMeta>, blockOffset: nat,
                    block: bytes, firstKey: bytes, lastKey: bytes, ghost blocks: Blocks, ghost open: seq<Item>)
    returns (stored: bytes, added: seq<BlockMeta>, offset: nat)
    requires BodyOk(c, kind, file, metas, blocks) && blockOffset == |file|
    requires Room(c, kind, |file|, block) && |lastKey| < U32_MOD
    requires open != [] && AllFit(open) && block == BlockOf(open) && firstKey == open[0].key
    ensures BodyOk(c, kind, stored, added, blocks + [open]) && offset == |stored| < U64_MOD
    ensures stored == file + StoredBlock(c, kind, block)
  {
    hide BodyOk, AllFit, StoredBlock, Room, BlockOf;
    RoomFacts(c, kind, |file|, block);
    var output := StoredBlock(c, kind, block);
    var meta := BlockMeta(blockOffset, AsU32(|output|), AsU32(|block|), firstKey, lastKey);
    BlockAdded(c, kind, file, metas, blocks, open, meta);
    stored, added, offset := file + output, metas + [meta], blockOffset + AsU32(|output|);
  }

  class SSTableBuilder {
    const codec: Codec
    const kind: CompressionType
    const bloom: StorageBloom.BloomFilter
    var file: bytes
    var blockMetas: seq<BlockMeta>
    var currentBlock: bytes
    var blockFirstKey: Option<bytes>
    var blockOffset: nat
    var numKeys: nat
    ghost var blocks: Blocks
    ghost var open: seq<Item>

    constructor (codec: Codec, kind: CompressionType, hash: StorageBloom.KeyHash, bloomBytes: nat, numHashes: u32)
      requires bloomBytes >= 8
      ensures Valid() && fresh(bloom) && fresh(bloom.bits) && View() == Layout(0, [], [])
      ensures this.codec == codec && this.kind == kind && bloom.hash == hash && bloom.bits.Length == bloomBytes
    {
      this.codec, this.kind := codec, kind;
      bloom := new StorageBloom.BloomFilter(hash, bloomBytes, numHashes);
      file, blockMetas, currentBlock, blockFirstKey, blockOffset, numKeys := [], [], [], None, 0, 0;
      blocks, open := [], [];
    }

    /** Everything added so far. */
    ghost function Added(): seq<Item>
      reads this
    {
      Flatten(blocks) + open
    }

    ghost function View(): Layout
      reads this
    {
      Layout(|file|, blocks, open)
    }

    ghost predicate OpenOk()
      reads this
    {
      && currentBlock == BlockOf(open) && AllFit(open)
      && blockFirstKey == (if open == [] then None else Some(open[0].key))
      && (open != [] ==> Room(codec, kind, |file|, currentBlock))
    }

    ghost predicate Valid()
      reads this, bloom, bloom.bits
    {
      && bloom.Valid() && OpenOk() && |currentBlock| < BLOCK_SIZE
      && BodyOk(codec, kind, file, blockMetas, blocks) && blockOffset == |file| < U64_MOD
      && KeysHeld(bloom.hash, bloom.bits[..], bloom.numHashes, Added())
    }

    /** Closes the current block, if it holds anything. */
    method FlushBlock(lastKey: bytes)
      requires OpenOk() && BodyOk(codec, kind, file, blockMetas, blocks) && blockOffset == |file| < U64_MOD
      requires |lastKey| < U32_MOD
      modifies this
      ensures OpenOk() && BodyOk(codec, kind, file, blockMetas, blocks) && blockOffset == |file| < U64_MOD
      ensures blocks == (if old(open) == [] then old(blocks) else old(blocks) + [old(open)]) && open == []
      ensures |file| == old(|file|) + if old(open) == [] then 0 else |StoredBlock(codec, kind, BlockOf(old(open)))|
      ensures Added() == old(Added())
      ensures numKeys == old(numKeys)
    {
      hide BodyOk, AllFit, StoredBlock, Room, Flatten, BlockOf;
      BlockEmptyIff(open);
      if currentBlock == [] {
        return;
      }
      ghost var block := open;
      FlattenOneMore(blocks, block);
      assert BlockOf([]) == [] && AllFit([]) by { EmptyBlock(); }
      assert Flatten(blocks + [block]) + [] == Flatten(blocks) + block;
      file, blockMetas, blockOffset := StoreBlock(codec, kind, file, blockMetas, blockOffset, currentBlock,
                                                  blockFirstKey.value, lastKey, blocks, block);
      currentBlock, blockFirstKey := [], None;
      blocks, open := blocks + [block], [];
    }

    /** Puts the key into the filter and the entry at the end of the current block. */
    method Enter(key: bytes, value: Option<bytes>)
      requires Valid() && Fits(Item(key, value))
      requires Room(codec, kind, |file|, currentBlock + EncodeItem(Item(key, value)))
      modifies this`currentBlock, this`blockFirstKey, this`numKeys, this`open, bloom.bits
      ensures OpenOk() && KeysHeld(bloom.hash, bloom.bits[..], bloom.numHashes, Added())
      ensures open == old(open) + [Item(key, value)] && numKeys == old(numKeys) + 1
      ensures currentBlock == old(currentBlock) + EncodeItem(Item(key, value))
    {
      hide BodyOk, Flatten, Room, StorageBloom.BitAt, StorageBloom.Probed, StorageBloom.MayContain, BlockOf;
      ghost var item := Item(key, value);
      BlockConcat(open, [item]);
      BlockOfOne(item);
      ghost var before := bloom.bits[..];
      bloom.Insert(key);
      KeysStillHeld(bloom.hash, before, bloom.bits[..], bloom.numHashes, Added(), item);
      if blockFirstKey.None? {
        blockFirstKey := Some(key);
      }
      currentBlock := currentBlock + U32ToLe(AsU32(|key|)) + key;
      match value {
        case Some(v) => currentBlock := currentBlock + U32ToLe(AsU32(|v|)) + v;
        case None => currentBlock := currentBlock + U32ToLe(U32_MAX);
      }
      numKeys := numKeys + 1;
      open := open + [item];
      AddedAtEnd(Flatten(blocks), old(open), item);
      EncodedInSteps(old(currentBlock), key, value);
    }

    method Add(key: bytes, value: Option<bytes>)
      requires Valid() && Fits(Item(key, value))
      requires Room(codec, kind, |file|, currentBlock + EncodeItem(Item(key, value)))
      modifies this, bloom.bits
      ensures Valid() && View() == AddTo(codec, kind, old(View()), Item(key, value))
      ensures Added() == old(Added()) + [Item(key, value)] && numKeys == old(numKeys) + 1
    {
      hide BodyOk, Flatten, Room, StorageBloom.MayContain, KeysHeld, EncodeItem;
      AddedAtEnd(Flatten(blocks), open, Item(key, value));
      Enter(key, value);
      if |currentBlock| >= BLOCK_SIZE {
        FlushBlock(key);
        assert |BlockOf([])| == 0;
      }
    }

    /** Flushes the last block and writes the metadata: the finished file. */
    method Finish() returns (r: bytes, ghost md: Metadata)
      requires Valid() && GoodCodec(codec) && |blocks| + 1 < U32_MOD && bloom.bits.Length < U32_MOD
      modifies this
      ensures OpenTable(r) == Ok(md) && Holds(codec, bloom.hash, r, md, blocks) && Flatten(blocks) == old(Added())
      ensures blocks == if old(open) == [] then old(blocks) else old(blocks) + [old(open)]
    {
      hide BodyOk, Flatten, KeysHeld, Room, BlockOf, StorageBloom.MayContain;
      var lastKey: bytes := [];
      if blockMetas != [] {
        lastKey := blockMetas[|blockMetas| - 1].lastKey;
      }
      LastKeyFits(codec, kind, file, blockMetas, blocks);
      if currentBlock != [] {
        FlushBlock(lastKey);
      }
      assert open == [] by { BlockEmptyIff(open); }
      assert Flatten(blocks) + [] == Flatten(blocks);
      var contents := Metadata(kind, blockMetas, bloom.numHashes, bloom.bits[..]);
      md := contents;
      r := TableFile(file, contents);
      MetasFit(codec, kind, file, blockMetas, blocks);
      TableOpens(file, md);
      TableHolds(codec, bloom.hash, file, md, blocks);
    }
  }

  // ---------------------------------------------------------------- writing a whole table

  /** Adds the entries one after the other and finishes the table. */
  method WriteTable(c: Codec, kind: CompressionType, hash: StorageBloom.KeyHash, bloomBytes: nat, numHashes: u32,
                    items: seq<Item>)
    returns (file: bytes, ghost md: Metadata)
    requires GoodCodec(c) && 8 <= bloomBytes < U32_MOD && |items| + 1 < U32_MOD && RoomForAll(c, kind, items)
    ensures OpenTable(file) == Ok(md) && Holds(c, hash, file, md, BlocksOf(c, kind, items))
    ensures Flatten(BlocksOf(c, kind, items)) == items
  {
    hide AddTo, Room, Fits, BlockOf, Holds;
    var builder := new SSTableBuilder(c, kind, hash, bloomBytes, numHashes);
    assert Flatten<Item>([]) == [] by { NoBlocks(); }
    for i := 0 to |items|
      invariant builder.Valid() && builder.codec == c && builder.kind == kind && builder.bloom.hash == hash
      invariant fresh(builder) && fresh(builder.bloom) && fresh(builder.bloom.bits)
      invariant builder.bloom.bits.Length == bloomBytes
      invariant builder.View() == LayoutOf(c, kind, items[..i])
    {
      assert items[..i + 1][..i] == items[..i];
      RoomForNext(c, kind, items, i, builder.currentBlock);
      builder.Add(items[i].key, items[i].value);
    }
    assert items[..|items|] == items;
    LayoutHolds(c, kind, items);
    ghost var blocks := BlocksOf(c, kind, items);
    file, md := builder.Finish();
    assert builder.blocks == blocks;
  }

  lemma RoomForNext(c: Codec, kind: CompressionType, items: seq<Item>, i: nat, block: bytes)
    requires RoomForAll(c, kind, items) && i < |items| && block == BlockOf(LayoutOf(c, kind, items[..i]).open)
    ensures Fits(items[i]) && Room(c, kind, LayoutOf(c, kind, items[..i]).size, block + EncodeItem(items[i]))
  {
    BlockConcat(LayoutOf(c, kind, items[..i]).open, [items[i]]);
    BlockOfOne(items[i]);
    hide BlockOf, EncodeItem, Room, Fits, LayoutOf;
  }

  // ---------------------------------------------------------------- what the builder's steps do

  lemma AddedAtEnd(a: seq<Item>, b: seq<Item>, item: Item)
    ensures a + (b + [item]) == a + b + [item]
  {
  }

  lemma EncodedInSteps(block: bytes, key: bytes, value: Option<bytes>)
    ensures block + EncodeItem(Item(key, value)) ==
            match value
            case Some(v) => block + U32ToLe(AsU32(|key|)) + key + U32ToLe(AsU32(|v|)) + v
            case None => block + U32ToLe(AsU32(|key|)) + key + U32ToLe(U32_MAX)
  {
    hide U32ToLe;
    match value
    case Some(v) =>
      AppendParts(block, U32ToLe(AsU32(|key|)), key, U32ToLe(AsU32(|v|)), v);
    case None =>
      AppendParts(block, U32ToLe(AsU32(|key|)), key, U32ToLe(U32_MAX), []);
      assert U32ToLe(U32_MAX) + [] == U32ToLe(U32_MAX);
      assert block + U32ToLe(AsU32(|key|)) + key + U32ToLe(U32_MAX) + [] ==
             block + U32ToLe(AsU32(|key|)) + key + U32ToLe(U32_MAX);
  }

  lemma AppendParts(a: bytes, b: bytes, c: bytes, d: bytes, e: bytes)
    ensures a + b + c + d + e == a + (b + (c + (d + e)))
  {
  }

  /** The filter, after one more key. */
  lemma KeysStillHeld(hash: StorageBloom.KeyHash, before: bytes, after: bytes, numHashes: nat, items: seq<Item>,
                      item: Item)
    requires before != [] && |after| == |before| && KeysHeld(hash, before, numHashes, items)
    requires forall p :: 0 <= p < 8 * |before| && StorageBloom.BitAt(before, p) ==> StorageBloom.BitAt(after, p)
    requires StorageBloom.MayContain(after, numHashes, hash(item.key))
    ensures KeysHeld(hash, after, numHashes, items + [item])
  {
    hide StorageBloom.MayContain, StorageBloom.BitAt;
    forall i | 0 <= i < |items| ensures StorageBloom.MayContain(after, numHashes, hash(items[i].key)) {
      StorageBloom.MoreBitsKeepKeys(before, after, numHashes, hash(items[i].key));
    }
  }

  lemma LastKeyFits(c: Codec, kind: CompressionType, file: bytes, metas: seq<BlockMeta>, blocks: Blocks)
    requires BodyOk(c, kind, file, metas, blocks)
    ensures metas != [] ==> |metas[|metas| - 1].lastKey| < U32_MOD
  {
    if metas != [] {
      assert BlockAt(c, kind, file, metas[|metas| - 1], blocks[|metas| - 1]);
    }
  }

  lemma MetasFit(c: Codec, kind: CompressionType, file: bytes, metas: seq<BlockMeta>, blocks: Blocks)
    requires BodyOk(c, kind, file, metas, blocks)
    ensures |metas| == |blocks| && forall i :: 0 <= i < |metas| ==> KeysFit(metas[i])
  {
    hide StoredAt, AllFit, KeysFit;
    forall i | 0 <= i < |metas| ensures KeysFit(metas[i]) {
      assert BlockAt(c, kind, file, metas[i], blocks[i]);
    }
  }

  lemma TableHolds(c: Codec, hash: StorageBloom.KeyHash, body: bytes, md: Metadata, blocks: Blocks)
    requires BodyOk(c, md.kind, body, md.metas, blocks)
    requires md.bits != [] && KeysHeld(hash, md.bits, md.numHashes, Flatten(blocks))
    ensures Holds(c, hash, TableFile(body, md), md, blocks)
  {
    hide BodyOk, KeysHeld, U32ToLe, U64ToLe, EncodeMetadata;
    var footer := U64ToLe(|body| % U64_MOD) + U32ToLe(SSTABLE_MAGIC);
    StoredLonger(c, md.kind, body, EncodeMetadata(md) + footer, md.metas, blocks);
  }

  lemma EmptyBlock()
    ensures BlockOf([]) == [] && AllFit([])
  {
  }

  lemma BlockEmptyIff(items: seq<Item>)
    ensures BlockOf(items) == [] <==> items == []
  {
  }

  lemma RoomFacts(c: Codec, kind: CompressionType, fileSize: nat, block: bytes)
    requires Room(c, kind, fileSize, block)
    ensures |block| < U32_MOD && |StoredBlock(c, kind, block)| < U32_MOD
    ensures fileSize + |StoredBlock(c, kind, block)| < U64_MOD
  {
  }

  lemma BlockAdded(c: Codec, kind: CompressionType, file: bytes, metas: seq<BlockMeta>, blocks: Blocks,
                   block: seq<Item>, meta: BlockMeta)
    requires BodyOk(c, kind, file, metas, blocks) && block != [] && AllFit(block)
    requires meta.offset == |file| && meta.length == |StoredBlock(c, kind, BlockOf(block))|
    requires meta.uncompressedLength == |BlockOf(block)|
    requires meta.firstKey == block[0].key && |meta.lastKey| < U32_MOD
    ensures BodyOk(c, kind, file + StoredBlock(c, kind, BlockOf(block)), metas + [meta], blocks + [block])
  {
    var more := StoredBlock(c, kind, BlockOf(block));
    StoredLonger(c, kind, file, more, metas, blocks);
    StoredAtEnd(c, kind, file, BlockOf(block), meta);
    assert KeysFit(meta) by { assert Fits(block[0]); }
    assert BlockAt(c, kind, file + more, meta, block);
    hide BlockAt, StoredBlock, BlockOf;
  }
}
