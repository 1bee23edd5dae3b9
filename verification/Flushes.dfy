/**
 `flush_immutable` of crabstash-storage/src/lsm.rs: the versions of a memtable become the entries of a
 table file, without their timestamps, and point reads are answered from that file.
 */
module Flushes {
  import opened Bytes
  import opened Simd
  import opened Sequences
  import opened SSTableFormat
  import opened SSTables
  import opened TableReader
  import opened MemTables
  import StorageBloom

  /** What the builder is given: the user key and the value of each version. */
  function ItemsOf(entries: seq<Version>): (items: seq<Item>)
    ensures |items| == |entries|
  {
    seq(|entries|, i requires 0 <= i < |entries| => Item(entries[i].0.data, entries[i].1))
  }

  lemma FlushedInKeyOrder(entries: seq<Version>)
    requires Sorted(entries)
    ensures NonDescending(ItemsOf(entries))
  {
    forall i, j | 0 <= i < j < |entries| ensures Le(entries[i].0.data, entries[j].0.data) {
      assert CompareKeys(entries[i].0, entries[j].0) == Less;
      LtTotal(entries[i].0.data, entries[j].0.data);
    }
  }

  /** Before the first version of a key in key order there is no newer one. */
  lemma FirstIsNewest(entries: seq<Version>, i: nat, ts: nat)
    requires Sorted(entries) && i < |entries| && forall e :: e in entries ==> e.0.timestamp <= ts
    requires forall j :: 0 <= j < i ==> entries[j].0.data != entries[i].0.data
    ensures Newest(entries, entries[i], ts)
  {
    forall j | i < j < |entries| && entries[j].0.data == entries[i].0.data
      ensures entries[j].0.timestamp <= entries[i].0.timestamp
    {
      assert CompareKeys(entries[i].0, entries[j].0) == Less;
      LtIrreflexive(entries[i].0.data);
    }
  }

  /** Looking a key up among the flushed entries finds its newest version. */
  lemma LookupIsNewest(entries: seq<Version>, key: bytes, ts: nat)
    requires Sorted(entries) && forall e :: e in entries ==> e.0.timestamp <= ts
    ensures IsReadAt(entries, key, ts, LookupItem(ItemsOf(entries), key))
  {
    hide Newest, Sorted, LookupItem;
    var items := ItemsOf(entries);
    if HasKey(items, key) {
      var i := FirstWith(items, key);
      FoundAt(items, i);
      assert forall j :: 0 <= j < i ==> items[j].key == entries[j].0.data;
      FirstIsNewest(entries, i, ts);
      var (k, v) := entries[i];
      assert k.data == key && Newest(entries, (k, LookupItem(items, key)), ts);
    } else {
      LookupAbsent(items, key);
      forall i | 0 <= i < |entries| ensures entries[i].0.data != key {
        assert items[i].key != key;
      }
    }
  }

  function FirstWith(items: seq<Item>, key: bytes): (i: nat)
    requires HasKey(items, key)
    ensures i < |items| && items[i].key == key && forall j :: 0 <= j < i ==> items[j].key != key
  {
    if items[0].key == key then 0
    else
      assert HasKey(items[1..], key) by { TailHasKey(items, key); }
      1 + FirstWith(items[1..], key)
  }

  lemma TailHasKey(items: seq<Item>, key: bytes)
    requires HasKey(items, key) && items[0].key != key
    ensures HasKey(items[1..], key)
  {
    var i :| 0 <= i < |items| && items[i].key == key;
    assert items[1..][i - 1].key == key;
  }

  // ---------------------------------------------------------------- reading it back

  /** Of two entries of one key in key order the second is the older version. */
  lemma LaterIsOlder(entries: seq<Version>, i: nat, j: nat)
    requires Sorted(entries) && i < j < |entries| && entries[i].0.data == entries[j].0.data
    ensures entries[j].0.timestamp < entries[i].0.timestamp
  {
    assert CompareKeys(entries[i].0, entries[j].0) == Less;
    LtIrreflexive(entries[i].0.data);
  }

  /** Entry `p` is an older version of the key. */
  predicate Outdated(entries: seq<Version>, key: bytes, p: nat) {
    && p < |entries| && entries[p].0.data == key
    && exists i :: 0 <= i < p && entries[i].0.data == key && entries[p].0.timestamp < entries[i].0.timestamp
  }

  /** The entry a later block starts with is an older version. */
  lemma LaterBlockIsOutdated(entries: seq<Version>, blocks: Blocks, key: bytes, idx: nat)
    requires Sorted(entries) && Flatten(blocks) == ItemsOf(entries) && idx < |blocks|
    requires HasKey(Flatten(blocks[..idx]), key) && blocks[idx] != [] && blocks[idx][0].key == key
    ensures var p := |Flatten(blocks[..idx])|;
            Outdated(entries, key, p) && entries[p].1 == blocks[idx][0].value
  {
    var before := Flatten(blocks[..idx]);
    FlattenAround(blocks, idx);
    hide Flatten, Sorted;
    var items := ItemsOf(entries);
    assert items[|before|] == blocks[idx][0];
    var i :| 0 <= i < |before| && before[i].key == key;
    assert items[i] == before[i];
    LaterIsOlder(entries, i, |before|);
  }

  /**
   What a point read answers from a file just flushed: the newest version of the key, or nothing if it has
   none; but an older version if the block found starts with the key and the block before ends with it.
   */
  method ReadFlushed(c: Codec, kind: CompressionType, hash: StorageBloom.KeyHash, bloomBytes: nat, numHashes: u32,
                     entries: seq<Version>, key: bytes, ts: nat)
    returns (r: Result<Option<bytes>>, ghost idx: nat)
    requires Sorted(entries) && forall e :: e in entries ==> e.0.timestamp <= ts
    requires GoodCodec(c) && 8 <= bloomBytes < U32_MOD && |entries| + 1 < U32_MOD
    requires RoomForAll(c, kind, ItemsOf(entries))
    ensures var blocks := BlocksOf(c, kind, ItemsOf(entries));
            if idx < |blocks| && BeginsBefore(blocks, key, idx) then
              var p := |Flatten(blocks[..idx])|;
              Outdated(entries, key, p) && r == Ok(entries[p].1)
            else r.Ok? && IsReadAt(entries, key, ts, r.value)
    ensures Unsplit(BlocksOf(c, kind, ItemsOf(entries)), key) ==> r.Ok? && IsReadAt(entries, key, ts, r.value)
  {
    hide RoomForAll, BlocksOf, Holds, Sorted, NonDescending, IsReadAt, Outdated, BeginsBefore, Unsplit, LookupItem;
    ghost var blocks := BlocksOf(c, kind, ItemsOf(entries));
    FlushedInKeyOrder(entries);
    LookupIsNewest(entries, key, ts);
    r, idx := WriteAndGet(c, kind, hash, bloomBytes, numHashes, ItemsOf(entries), key);
    if idx < |blocks| && BeginsBefore(blocks, key, idx) {
      LaterBlockIsOutdated(entries, blocks, key, idx);
    }
  }

  /** A read after a flush answers as the memtable did, where no block boundary separates the key's versions. */
  lemma FlushKeepsContents(c: Codec, hash: StorageBloom.KeyHash, file: bytes, md: Metadata, blocks: Blocks, idx: nat,
                           entries: seq<Version>, contents: map<bytes, bytes>, nextTs: nat, key: bytes)
    requires GoodCodec(c) && Holds(c, hash, file, md, blocks) && Flatten(blocks) == ItemsOf(entries)
    requires Sorted(entries) && Represents(entries, contents, nextTs)
    requires IsBlockFor(md.metas, key, idx) && Unsplit(blocks, key)
    ensures PointRead(c, hash, file, md, key, idx) == Ok(if key in contents then Some(contents[key]) else None)
  {
    hide Holds, IsBlockFor, Unsplit, Sorted, Flatten, NonDescending, PointRead, LookupItem;
    FlushedInKeyOrder(entries);
    ReadOfBlocks(c, hash, file, md, blocks, key, idx);
    LookupIsNewest(entries, key, nextTs);
    ReadSeesContents(entries, contents, nextTs, key, LookupItem(ItemsOf(entries), key));
  }

  lemma ReadSeesContents(entries: seq<Version>, contents: map<bytes, bytes>, nextTs: nat, key: bytes, r: Option<bytes>)
    requires Represents(entries, contents, nextTs) && IsReadAt(entries, key, nextTs, r)
    ensures r == if key in contents then Some(contents[key]) else None
  {
    if key in contents {
      var k: Key :| k.data == key && Newest(entries, (k, Some(contents[key])), nextTs);
    }
  }

  // ---------------------------------------------------------------- a key that straddles two blocks

  function Zeros(n: nat): (r: bytes)
    ensures |r| == n
  {
    if n == 0 then [] else [0] + Zeros(n - 1)
  }

  /** A key written twice, the second time with a value that fills its block, behind another key. */
  function Straddling(stale: bytes): seq<Version> {
    [(Key([0], 1), None), (Key([1], 3), Some(Zeros(BLOCK_SIZE))), (Key([1], 2), Some(stale))]
  }

  lemma StraddlingVersions(stale: bytes)
    requires stale != Zeros(BLOCK_SIZE)
    ensures Sorted(Straddling(stale)) && IsReadAt(Straddling(stale), [1], 3, Some(Zeros(BLOCK_SIZE)))
    ensures !IsReadAt(Straddling(stale), [1], 3, Some(stale))
  {
    var entries := Straddling(stale);
    assert Lt([0], [1]);
    LtIrreflexive([1]);
    assert Newest(entries, (Key([1], 3), Some(Zeros(BLOCK_SIZE))), 3) by { assert entries[1] in entries; }
    assert entries[1].0.timestamp == 3;
  }

  lemma LayoutOneMore(c: Codec, kind: CompressionType, items: seq<Item>, item: Item)
    ensures LayoutOf(c, kind, items + [item]) == AddTo(c, kind, LayoutOf(c, kind, items), item)
  {
    hide AddTo;
    assert (items + [item])[..|items|] == items;
  }

  /** Two entries that fill a block between them, and one that does not. */
  lemma TwoBlocks(c: Codec, kind: CompressionType, a: Item, b: Item, d: Item)
    requires |EncodeItem(a)| < BLOCK_SIZE <= |EncodeItem(b)| && |EncodeItem(d)| < BLOCK_SIZE
    ensures BlocksOf(c, kind, [a, b, d]) == [[a, b], [d]]
  {
    hide EncodeItem, StoredBlock;
    BlockOfOne(a);
    BlockOfOne(b);
    BlockOfOne(d);
    BlockConcat([a], [b]);
    hide BlockOf;
    assert LayoutOf(c, kind, []) == Layout(0, [], []);
    LayoutOneMore(c, kind, [], a);
    LayoutOneMore(c, kind, [a], b);
    LayoutOneMore(c, kind, [a, b], d);
    hide LayoutOf;
    assert [] + [a] == [a] && [a] + [b] == [a, b] && [a, b] + [d] == [a, b, d] && [] + [d] == [d];
    assert LayoutOf(c, kind, [a, b]).blocks == [[a, b]];
  }

  /** The second block starts with the older version. */
  lemma StraddlingBlocks(c: Codec, kind: CompressionType, stale: bytes)
    requires |stale| < BLOCK_SIZE - 100
    ensures var items := ItemsOf(Straddling(stale));
            BlocksOf(c, kind, items) == [[items[0], items[1]], [items[2]]]
  {
    hide EncodeItem;
    var items := ItemsOf(Straddling(stale));
    ItemSizes(items[0]);
    ItemSizes(items[1]);
    ItemSizes(items[2]);
    TwoBlocks(c, kind, items[0], items[1], items[2]);
    assert items == [items[0], items[1], items[2]];
  }

  lemma ItemSizes(item: Item)
    ensures |EncodeItem(item)| == 8 + |item.key| + if item.value.Some? then |item.value.value| else 0
  {
    hide U32ToLe;
  }

  /** Every read of the key from the flushed file answers the value that was overwritten. */
  lemma OverwrittenValueIsRead(c: Codec, kind: CompressionType, hash: StorageBloom.KeyHash, file: bytes, md: Metadata,
                               idx: nat, stale: bytes)
    requires GoodCodec(c) && |stale| < BLOCK_SIZE - 100
    requires Holds(c, hash, file, md, BlocksOf(c, kind, ItemsOf(Straddling(stale)))) && IsBlockFor(md.metas, [1], idx)
    ensures PointRead(c, hash, file, md, [1], idx) == Ok(Some(stale))
    ensures Sorted(Straddling(stale)) && IsReadAt(Straddling(stale), [1], 3, Some(Zeros(BLOCK_SIZE)))
    ensures !IsReadAt(Straddling(stale), [1], 3, Some(stale))
  {
    var items := ItemsOf(Straddling(stale));
    var blocks := BlocksOf(c, kind, items);
    StraddlingVersions(stale);
    StraddlingBlocks(c, kind, stale);
    FlushedInKeyOrder(Straddling(stale));
    assert items[0].key == [0] && items[1].key == [1] && items[2] == Item([1], Some(stale));
    hide Straddling, Sorted, IsReadAt;
    LayoutHolds(c, kind, items);
    SecondBlockAnswers(c, hash, file, md, blocks, items, idx);
  }

  lemma SecondBlockAnswers(c: Codec, hash: StorageBloom.KeyHash, file: bytes, md: Metadata, blocks: Blocks,
                           items: seq<Item>, idx: nat)
    requires GoodCodec(c) && Holds(c, hash, file, md, blocks) && Flatten(blocks) == items && NonDescending(items)
    requires |items| == 3 && blocks == [[items[0], items[1]], [items[2]]]
    requires items[0].key != items[1].key == items[2].key && IsBlockFor(md.metas, items[2].key, idx)
    ensures PointRead(c, hash, file, md, items[2].key, idx) == Ok(items[2].value)
  {
    hide Holds, NonDescending, PointRead, Flatten;
    TableStarts(c, hash, file, md, blocks);
    assert md.metas[1].firstKey == items[2].key && md.metas[0].firstKey == items[0].key;
    LaterBlockAnswers(c, hash, file, md, blocks, items[2].key, idx);
  }
}
