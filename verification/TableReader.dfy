/** Point reads of a table file, and its iterator (crabstash-storage/src/sstable.rs). */
module TableReader {
  import opened Bytes
  import opened Simd
  import opened Sequences
  import opened SSTableFormat
  import opened SSTables
  import StorageBloom

  // ---------------------------------------------------------------- where a key can be

  predicate FirstKeysOrdered(metas: seq<BlockMeta>) {
    forall i, j :: 0 <= i < j < |metas| ==> Le(metas[i].firstKey, metas[j].firstKey)
  }

  predicate IsFirstKey(metas: seq<BlockMeta>, key: bytes) {
    exists i :: 0 <= i < |metas| && metas[i].firstKey == key
  }

  /** The block to search: one that starts with the key, or else the last that starts before it, or the first. */
  predicate IsBlockFor(metas: seq<BlockMeta>, key: bytes, idx: nat) {
    if metas == [] then idx == 0
    else
      && idx < |metas|
      && if IsFirstKey(metas, key) then metas[idx].firstKey == key
         else
           && (idx > 0 ==> Lt(metas[idx].firstKey, key))
           && (idx + 1 < |metas| ==> Lt(key, metas[idx + 1].firstKey))
  }

  /** `slice::binary_search_by` on the first keys, then one step back unless the key itself was found. */
  method FindBlock(metas: seq<BlockMeta>, key: bytes) returns (idx: nat)
    requires FirstKeysOrdered(metas)
    ensures IsBlockFor(metas, key, idx)
  {
    LtIsStrictTotalOrder();
    var lo, hi := 0, |metas|;
    while lo < hi
      invariant 0 <= lo <= hi <= |metas|
      invariant forall i :: 0 <= i < lo ==> Lt(metas[i].firstKey, key)
      invariant forall i :: hi <= i < |metas| ==> Lt(key, metas[i].firstKey)
    {
      var mid := (lo + hi) / 2;
      var ord := CompareBytes(metas[mid].firstKey, key);
      if ord == Equal {
        return mid;
      }
      if ord == Less {
        lo := mid + 1;
      } else {
        hi := mid;
      }
    }
    idx := if lo == 0 then 0 else lo - 1;
  }

  predicate HasKey(items: seq<Item>, key: bytes) {
    exists i :: 0 <= i < |items| && items[i].key == key
  }

  lemma {:induction false} LookupConcat(a: seq<Item>, b: seq<Item>, key: bytes)
    ensures LookupItem(a + b, key) == if HasKey(a, key) then LookupItem(a, key) else LookupItem(b, key)
    decreases |a|
  {
    if a == [] {
      assert a + b == b;
    } else {
      assert (a + b)[1..] == a[1..] + b;
      LookupConcat(a[1..], b, key);
      assert HasKey(a, key) <==> a[0].key == key || HasKey(a[1..], key) by {
        if HasKey(a[1..], key) {
          var i :| 0 <= i < |a[1..]| && a[1..][i].key == key;
          assert a[i + 1].key == key;
        }
        if i :| 1 <= i < |a| && a[i].key == key {
          assert a[1..][i - 1].key == key;
        }
      }
    }
  }

  lemma {:induction false} LookupAbsent(items: seq<Item>, key: bytes)
    requires !HasKey(items, key)
    ensures LookupItem(items, key) == None
  {
    if items != [] {
      assert items[0].key != key;
      forall i | 0 <= i < |items[1..]| ensures items[1..][i].key != key {
        assert items[1..][i] == items[i + 1];
      }
      LookupAbsent(items[1..], key);
    }
  }

  /** The first entry of a key is the one found. */
  lemma {:induction false} FoundAt(items: seq<Item>, k: nat)
    requires k < |items| && forall q :: 0 <= q < k ==> items[q].key != items[k].key
    ensures LookupItem(items, items[k].key) == items[k].value
  {
    if k > 0 {
      assert items[0].key != items[k].key;
      assert forall q :: 0 <= q < k - 1 ==> items[1..][q] == items[q + 1];
      FoundAt(items[1..], k - 1);
    }
  }

  /** In strictly ascending entries, a value is found exactly when it was added under the key. */
  lemma {:induction false} LookupIsExact(items: seq<Item>, key: bytes, value: bytes)
    requires Ascending(items)
    ensures LookupItem(items, key) == Some(value) <==> Item(key, Some(value)) in items
  {
    if items != [] {
      assert forall i :: 0 <= i < |items[1..]| ==> items[1..][i] == items[i + 1];
      LookupIsExact(items[1..], key, value);
      LtIrreflexive(key);
      if items[0].key == key {
        forall i | 0 <= i < |items[1..]| ensures items[1..][i].key != key {
          assert Lt(items[0].key, items[i + 1].key);
        }
      }
    }
  }

  lemma FlattenOne(block: seq<Item>)
    ensures Flatten([block]) == block
  {
    assert [block][..0] == [];
  }

  /** The items before, in and after one block. */
  lemma FlattenAround(blocks: Blocks, i: nat)
    requires i < |blocks|
    ensures Flatten(blocks) == Flatten(blocks[..i]) + (blocks[i] + Flatten(blocks[i + 1..]))
  {
    hide Flatten;
    assert blocks == blocks[..i] + blocks[i..];
    FlattenConcat(blocks[..i], blocks[i..]);
    FlattenFrom(blocks, i);
  }

  lemma FlattenFrom(blocks: Blocks, i: nat)
    requires i < |blocks|
    ensures Flatten(blocks[i..]) == blocks[i] + Flatten(blocks[i + 1..])
  {
    hide Flatten;
    assert blocks[i..] == [blocks[i]] + blocks[i + 1..];
    FlattenConcat([blocks[i]], blocks[i + 1..]);
    FlattenOne(blocks[i]);
  }

  /** Consecutive slices of an ascending sequence. */
  lemma AscendingParts(a: seq<Item>, b: seq<Item>, c: seq<Item>, all: seq<Item>)
    requires all == a + (b + c) && Ascending(all)
    ensures forall i, j :: 0 <= i < |a| && 0 <= j < |b| ==> Lt(a[i].key, b[j].key)
    ensures forall i, j :: 0 <= i < |b| && 0 <= j < |c| ==> Lt(b[i].key, c[j].key)
    ensures Ascending(a) && Ascending(b) && Ascending(c)
  {
    assert forall i :: 0 <= i < |a| ==> all[i] == a[i];
    assert forall i :: 0 <= i < |b| ==> all[|a| + i] == b[i];
    assert forall i :: 0 <= i < |c| ==> all[|a| + |b| + i] == c[i];
  }

  lemma OrderedParts(a: seq<Item>, b: seq<Item>, c: seq<Item>, all: seq<Item>)
    requires all == a + (b + c) && NonDescending(all)
    ensures forall i, j :: 0 <= i < |a| && 0 <= j < |b| ==> Le(a[i].key, b[j].key)
    ensures forall i, j :: 0 <= i < |b| && 0 <= j < |c| ==> Le(b[i].key, c[j].key)
    ensures NonDescending(a) && NonDescending(b) && NonDescending(c)
  {
    hide Le;
    assert forall i :: 0 <= i < |a| ==> all[i] == a[i];
    assert forall i :: 0 <= i < |b| ==> all[|a| + i] == b[i];
    assert forall i :: 0 <= i < |c| ==> all[|a| + |b| + i] == c[i];
  }

  lemma HasKeyConcat(a: seq<Item>, b: seq<Item>, key: bytes)
    ensures HasKey(a + b, key) <==> HasKey(a, key) || HasKey(b, key)
  {
    if i :| 0 <= i < |a| && a[i].key == key {
      assert (a + b)[i].key == key;
    }
    if i :| 0 <= i < |b| && b[i].key == key {
      assert (a + b)[|a| + i].key == key;
    }
    if i :| 0 <= i < |a + b| && (a + b)[i].key == key {
      if i < |a| {
        assert a[i].key == key;
      } else {
        assert b[i - |a|].key == key;
      }
    }
  }

  lemma {:induction false} BlockKeyIsHeld(blocks: Blocks, i: nat, key: bytes)
    requires i < |blocks| && HasKey(blocks[i], key)
    ensures HasKey(Flatten(blocks), key)
  {
    hide HasKey;
    var n := |blocks| - 1;
    HasKeyConcat(Flatten(blocks[..n]), blocks[n], key);
    if i < n {
      BlockKeyIsHeld(blocks[..n], i, key);
    }
  }

  predicate StartsMatch(metas: seq<BlockMeta>, blocks: Blocks) {
    |metas| == |blocks| && forall i :: 0 <= i < |blocks| ==> blocks[i] != [] && metas[i].firstKey == blocks[i][0].key
  }

  lemma StartsOrdered(metas: seq<BlockMeta>, blocks: Blocks)
    requires StartsMatch(metas, blocks) && NonDescending(Flatten(blocks))
    ensures FirstKeysOrdered(metas)
  {
    forall i, j | 0 <= i < j < |metas| ensures Le(metas[i].firstKey, metas[j].firstKey) {
      FlattenAround(blocks, j);
      OrderedParts(Flatten(blocks[..j]), blocks[j], Flatten(blocks[j + 1..]), Flatten(blocks));
      assert HasKey(blocks[..j][i], metas[i].firstKey);
      BlockKeyIsHeld(blocks[..j], i, metas[i].firstKey);
    }
  }

  lemma FlattenHead(blocks: Blocks)
    requires blocks != [] && blocks[0] != []
    ensures Flatten(blocks) != [] && Flatten(blocks)[0] == blocks[0][0]
  {
    FlattenAround(blocks, 0);
    assert blocks[..0] == [];
  }

  /** The block before ends with the key, so its versions do not begin in block `idx`. */
  predicate BeginsBefore(blocks: Blocks, key: bytes, idx: nat) {
    0 < idx <= |blocks| && blocks[idx - 1] != [] && blocks[idx - 1][|blocks[idx - 1]| - 1].key == key
  }

  /** What lies before a block: nothing, or entries up to the last one of the block before. */
  lemma LastBefore(blocks: Blocks, idx: nat)
    requires idx <= |blocks| && forall i :: 0 <= i < idx ==> blocks[i] != []
    ensures idx == 0 ==> Flatten(blocks[..idx]) == []
    ensures idx > 0 ==>
              var before, last := Flatten(blocks[..idx]), blocks[idx - 1];
              before != [] && before[|before| - 1] == last[|last| - 1]
  {
    if idx > 0 {
      assert blocks[..idx][..idx - 1] == blocks[..idx - 1];
    }
  }

  lemma BeforeIsLess(a: seq<Item>, first: bytes, key: bytes)
    requires NonDescending(a) && Le(first, key)
    requires forall i :: 0 <= i < |a| ==> Le(a[i].key, first)
    requires a != [] ==> first != key || a[|a| - 1].key != key
    ensures !HasKey(a, key)
  {
    LtIsStrictTotalOrder();
    forall i | 0 <= i < |a| ensures a[i].key != key {
      assert i < |a| - 1 ==> Le(a[i].key, a[|a| - 1].key);
    }
  }

  lemma AfterIsGreater(c: seq<Item>, key: bytes)
    requires c != [] && NonDescending(c) && Lt(key, c[0].key)
    ensures !HasKey(c, key)
  {
    LtIsStrictTotalOrder();
    forall i | 0 <= i < |c| ensures c[i].key != key {
      assert i > 0 ==> Le(c[0].key, c[i].key);
    }
  }

  /** No entry before the block found has the key, unless the block before ends with it. */
  lemma NoneBefore(metas: seq<BlockMeta>, blocks: Blocks, key: bytes, idx: nat)
    requires StartsMatch(metas, blocks) && NonDescending(Flatten(blocks))
    requires IsBlockFor(metas, key, idx) && idx < |blocks| && !BeginsBefore(blocks, key, idx)
    ensures !HasKey(Flatten(blocks[..idx]), key)
  {
    var a, b, c := Flatten(blocks[..idx]), blocks[idx], Flatten(blocks[idx + 1..]);
    FlattenAround(blocks, idx);
    OrderedParts(a, b, c, Flatten(blocks));
    LastBefore(blocks, idx);
    hide Flatten, NonDescending, HasKey;
    if idx > 0 {
      BeforeIsLess(a, b[0].key, key);
    }
  }

  /** No entry behind the block found has the key, unless the block starts with it. */
  lemma NoneAfter(metas: seq<BlockMeta>, blocks: Blocks, key: bytes, idx: nat)
    requires StartsMatch(metas, blocks) && NonDescending(Flatten(blocks))
    requires IsBlockFor(metas, key, idx) && idx < |blocks| && blocks[idx][0].key != key
    ensures !HasKey(Flatten(blocks[idx + 1..]), key)
  {
    var c := Flatten(blocks[idx + 1..]);
    if idx + 1 < |blocks| {
      FlattenAround(blocks, idx);
      OrderedParts(Flatten(blocks[..idx]), blocks[idx], c, Flatten(blocks));
      FlattenHead(blocks[idx + 1..]);
      AfterIsGreater(c, key);
    } else {
      assert blocks[idx + 1..] == [];
    }
  }

  /** The block found decides, unless the versions of the key begin before it. */
  lemma SearchedBlockDecides(metas: seq<BlockMeta>, blocks: Blocks, key: bytes, idx: nat)
    requires StartsMatch(metas, blocks) && NonDescending(Flatten(blocks))
    requires IsBlockFor(metas, key, idx) && idx < |blocks| && !BeginsBefore(blocks, key, idx)
    ensures LookupItem(Flatten(blocks), key) == LookupItem(blocks[idx], key)
  {
    var a, b, c := Flatten(blocks[..idx]), blocks[idx], Flatten(blocks[idx + 1..]);
    FlattenAround(blocks, idx);
    NoneBefore(metas, blocks, key, idx);
    LookupConcat(a, b + c, key);
    LookupConcat(b, c, key);
    if b[0].key == key {
      assert HasKey(b, key);
    } else {
      NoneAfter(metas, blocks, key, idx);
      LookupAbsent(c, key);
      if !HasKey(b, key) {
        LookupAbsent(b, key);
      }
    }
    hide Flatten, HasKey, IsBlockFor, NonDescending;
  }

  /** Where it starts with the key, its first entry is the answer, newest or not. */
  lemma HeadIsFound(block: seq<Item>, key: bytes)
    requires block != [] && block[0].key == key
    ensures LookupItem(block, key) == block[0].value
  {
  }

  // ---------------------------------------------------------------- point reads

  /** A point read of any file: the filter, then the one block that was found for the key. */
  function PointRead(c: Codec, hash: StorageBloom.KeyHash, file: bytes, md: Metadata, key: bytes,
                     idx: nat): Result<Option<bytes>>
    requires md.bits != []
  {
    if !StorageBloom.MayContain(md.bits, md.numHashes, hash(key)) then Ok(None)
    else if idx >= |md.metas| then Ok(None)
    else
      match ReadBlock(c, md.kind, file, md.metas[idx])
      case Ok(block) => Search(block, key)
      case Err(e) => Err(e)
  }

  lemma HeldBlockIsRead(c: Codec, hash: StorageBloom.KeyHash, file: bytes, md: Metadata, blocks: Blocks, idx: nat)
    requires GoodCodec(c) && Holds(c, hash, file, md, blocks) && idx < |blocks|
    ensures |md.metas| == |blocks| && ReadBlock(c, md.kind, file, md.metas[idx]) == Ok(BlockOf(blocks[idx]))
    ensures AllFit(blocks[idx]) && blocks[idx] != []
  {
    assert BlockAt(c, md.kind, file, md.metas[idx], blocks[idx]);
    StoredBlockComesBack(c, md.kind, file, md.metas[idx], BlockOf(blocks[idx]));
  }

  lemma FoundBlockIsSearched(c: Codec, hash: StorageBloom.KeyHash, file: bytes, md: Metadata, blocks: Blocks,
                             key: bytes, idx: nat)
    requires GoodCodec(c) && Holds(c, hash, file, md, blocks) && idx < |blocks|
    ensures PointRead(c, hash, file, md, key, idx) ==
            if StorageBloom.MayContain(md.bits, md.numHashes, hash(key)) then Ok(LookupItem(blocks[idx], key))
            else Ok(None)
  {
    HeldBlockIsRead(c, hash, file, md, blocks, idx);
    SearchFinds(blocks[idx], key);
    hide Holds, BodyOk, AllFit, GoodCodec, StorageBloom.MayContain, ReadBlock, Search, BlockOf, LookupItem;
  }

  lemma TableOrdered(c: Codec, hash: StorageBloom.KeyHash, file: bytes, md: Metadata, blocks: Blocks)
    requires Holds(c, hash, file, md, blocks) && NonDescending(Flatten(blocks))
    ensures StartsMatch(md.metas, blocks) && FirstKeysOrdered(md.metas)
  {
    hide Holds, NonDescending, FirstKeysOrdered, StartsMatch;
    TableStarts(c, hash, file, md, blocks);
    StartsOrdered(md.metas, blocks);
  }

  /**
   In a table of entries in key order a point read answers the first entry of the key, and nothing for a
   key without one, unless the block found is one that the key's entries have already begun before.
   */
  lemma PointReadIsLookup(c: Codec, hash: StorageBloom.KeyHash, file: bytes, md: Metadata, blocks: Blocks, key: bytes,
                          idx: nat)
    requires GoodCodec(c) && Holds(c, hash, file, md, blocks) && NonDescending(Flatten(blocks))
    requires IsBlockFor(md.metas, key, idx) && !BeginsBefore(blocks, key, idx)
    ensures PointRead(c, hash, file, md, key, idx) == Ok(LookupItem(Flatten(blocks), key))
  {
    TableOrdered(c, hash, file, md, blocks);
    if blocks == [] {
      assert Flatten(blocks) == [];
    } else {
      FoundBlockIsSearched(c, hash, file, md, blocks, key, idx);
      SearchedBlockDecides(md.metas, blocks, key, idx);
      assert KeysHeld(hash, md.bits, md.numHashes, Flatten(blocks));
      hide Holds, NonDescending, PointRead, Flatten, KeysHeld, LookupItem, BeginsBefore;
      if !StorageBloom.MayContain(md.bits, md.numHashes, hash(key)) {
        NotHeldIsAbsent(hash, md.bits, md.numHashes, Flatten(blocks), key);
        LookupAbsent(Flatten(blocks), key);
      }
    }
  }

  /** There it answers the entry the block starts with, which has another entry of the key before it. */
  lemma LaterBlockAnswers(c: Codec, hash: StorageBloom.KeyHash, file: bytes, md: Metadata, blocks: Blocks, key: bytes,
                          idx: nat)
    requires GoodCodec(c) && Holds(c, hash, file, md, blocks) && NonDescending(Flatten(blocks))
    requires IsBlockFor(md.metas, key, idx) && idx < |blocks| && BeginsBefore(blocks, key, idx)
    ensures HasKey(Flatten(blocks[..idx]), key)
    ensures blocks[idx] != [] && blocks[idx][0].key == key
    ensures PointRead(c, hash, file, md, key, idx) == Ok(blocks[idx][0].value)
  {
    hide Holds, HasKey, NonDescending, Flatten, LookupItem, PointRead, IsBlockFor;
    TableOrdered(c, hash, file, md, blocks);
    KeyBefore(blocks, key, idx);
    FlattenAround(blocks, idx);
    HasKeyConcat(Flatten(blocks[..idx]), blocks[idx] + Flatten(blocks[idx + 1..]), key);
    StartsWithKey(md.metas, blocks, key, idx);
    FoundBlockIsSearched(c, hash, file, md, blocks, key, idx);
    HeadIsFound(blocks[idx], key);
    HeldMayBeContained(c, hash, file, md, blocks, key);
  }

  lemma KeyBefore(blocks: Blocks, key: bytes, idx: nat)
    requires idx < |blocks| && BeginsBefore(blocks, key, idx)
    ensures HasKey(Flatten(blocks[..idx]), key)
  {
    hide Flatten;
    var last := blocks[idx - 1];
    assert last[|last| - 1].key == key;
    BlockKeyIsHeld(blocks[..idx], idx - 1, key);
  }

  lemma StartsWithKey(metas: seq<BlockMeta>, blocks: Blocks, key: bytes, idx: nat)
    requires StartsMatch(metas, blocks) && NonDescending(Flatten(blocks))
    requires IsBlockFor(metas, key, idx) && idx < |blocks| && BeginsBefore(blocks, key, idx)
    ensures blocks[idx][0].key == key
  {
    var a := Flatten(blocks[..idx]);
    FlattenAround(blocks, idx);
    OrderedParts(a, blocks[idx], Flatten(blocks[idx + 1..]), Flatten(blocks));
    LastBefore(blocks, idx);
    assert Le(a[|a| - 1].key, blocks[idx][0].key);
    LtIsStrictTotalOrder();
    hide Flatten, NonDescending;
  }

  /** A key of the table passes its filter. */
  lemma HeldMayBeContained(c: Codec, hash: StorageBloom.KeyHash, file: bytes, md: Metadata, blocks: Blocks, key: bytes)
    requires Holds(c, hash, file, md, blocks) && HasKey(Flatten(blocks), key)
    ensures StorageBloom.MayContain(md.bits, md.numHashes, hash(key))
  {
    hide StorageBloom.MayContain, BodyOk, Flatten;
  }

  class SSTable {
    const codec: Codec
    const hash: StorageBloom.KeyHash
    const file: bytes
    const meta: Metadata

    /** An opened table. */
    constructor (codec: Codec, hash: StorageBloom.KeyHash, file: bytes, meta: Metadata)
      requires OpenTable(file) == Ok(meta)
      ensures this.codec == codec && this.hash == hash && this.file == file && this.meta == meta
    {
      this.codec, this.hash, this.file, this.meta := codec, hash, file, meta;
    }

    /** The table came out of a builder that was given these blocks of entries. */
    ghost predicate BuiltFrom(blocks: Blocks) {
      GoodCodec(codec) && Holds(codec, hash, file, meta, blocks)
    }

    method Get(key: bytes) returns (r: Result<Option<bytes>>, ghost idx: nat)
      requires meta.bits != [] && FirstKeysOrdered(meta.metas)
      ensures IsBlockFor(meta.metas, key, idx) && r == PointRead(codec, hash, file, meta, key, idx)
    {
      var blockIdx := FindBlock(meta.metas, key);
      idx := blockIdx;
      hide IsBlockFor, FirstKeysOrdered, StorageBloom.MayContain, Search, ReadBlock;
      var maybe := StorageBloom.Test(meta.bits, meta.numHashes, hash(key));
      if !maybe || blockIdx >= |meta.metas| {
        r := Ok(None);
        return;
      }
      var block := ReadBlock(codec, meta.kind, file, meta.metas[blockIdx]);
      if block.Err? {
        r := Err(block.error);
        return;
      }
      r := SearchBlock(block.value, key);
    }
  }

  /** No block boundary separates two entries of the key. */
  predicate Unsplit(blocks: Blocks, key: bytes) {
    forall i :: 0 < i < |blocks| && BeginsBefore(blocks, key, i) ==> blocks[i] == [] || blocks[i][0].key != key
  }

  lemma UnsplitMeansWhole(c: Codec, hash: StorageBloom.KeyHash, file: bytes, md: Metadata, blocks: Blocks, key: bytes,
                          idx: nat)
    requires Holds(c, hash, file, md, blocks) && NonDescending(Flatten(blocks))
    requires IsBlockFor(md.metas, key, idx) && Unsplit(blocks, key)
    ensures !BeginsBefore(blocks, key, idx)
  {
    TableOrdered(c, hash, file, md, blocks);
    if BeginsBefore(blocks, key, idx) {
      StartsWithKey(md.metas, blocks, key, idx);
    }
  }

  /** Whatever block the search finds, the first entry of the key is read, if and only if the key is not split. */
  lemma WholeIffUnsplit(c: Codec, hash: StorageBloom.KeyHash, file: bytes, md: Metadata, blocks: Blocks, key: bytes)
    requires Holds(c, hash, file, md, blocks) && NonDescending(Flatten(blocks))
    ensures Unsplit(blocks, key) <==> forall idx | IsBlockFor(md.metas, key, idx) :: !BeginsBefore(blocks, key, idx)
  {
    hide Holds, NonDescending, Flatten, BeginsBefore;
    TableOrdered(c, hash, file, md, blocks);
    if Unsplit(blocks, key) {
      forall idx | IsBlockFor(md.metas, key, idx) ensures !BeginsBefore(blocks, key, idx) {
        UnsplitMeansWhole(c, hash, file, md, blocks, key, idx);
      }
    } else {
      var i :| 0 < i < |blocks| && BeginsBefore(blocks, key, i) && blocks[i] != [] && blocks[i][0].key == key;
      assert IsBlockFor(md.metas, key, i);
    }
  }

  /** In strictly ascending entries no key is split. */
  lemma AscendingIsUnsplit(blocks: Blocks, key: bytes)
    requires Ascending(Flatten(blocks)) && forall i :: 0 <= i < |blocks| ==> blocks[i] != []
    ensures Unsplit(blocks, key)
  {
    forall i | 0 < i < |blocks| && BeginsBefore(blocks, key, i) ensures blocks[i][0].key != key {
      FlattenAround(blocks, i);
      var a := Flatten(blocks[..i]);
      AscendingParts(a, blocks[i], Flatten(blocks[i + 1..]), Flatten(blocks));
      LastBefore(blocks, i);
      assert Lt(a[|a| - 1].key, blocks[i][0].key);
      LtIrreflexive(key);
      hide Flatten, Ascending;
    }
  }

  // ---------------------------------------------------------------- written and read back

  /** Writes a table of entries in key order, opens it and reads a key. */
  method WriteAndGet(c: Codec, kind: CompressionType, hash: StorageBloom.KeyHash, bloomBytes: nat, numHashes: u32,
                     items: seq<Item>, key: bytes)
    returns (r: Result<Option<bytes>>, ghost idx: nat)
    requires NonDescending(items) && RoomForAll(c, kind, items)
    requires GoodCodec(c) && 8 <= bloomBytes < U32_MOD && |items| + 1 < U32_MOD
    ensures Flatten(BlocksOf(c, kind, items)) == items
    ensures var blocks := BlocksOf(c, kind, items);
            if idx < |blocks| && BeginsBefore(blocks, key, idx) then
              HasKey(Flatten(blocks[..idx]), key) && blocks[idx] != [] && blocks[idx][0].key == key
              && r == Ok(blocks[idx][0].value)
            else r == Ok(LookupItem(items, key))
    ensures Unsplit(BlocksOf(c, kind, items), key) ==> r == Ok(LookupItem(items, key))
    ensures Ascending(items) ==> r.Ok? && forall v :: r.value == Some(v) <==> Item(key, Some(v)) in items
  {
    ghost var blocks := BlocksOf(c, kind, items);
    var file, md := WriteTable(c, kind, hash, bloomBytes, numHashes, items);
    hide RoomForAll, BlocksOf, NonDescending, Ascending, Unsplit, BeginsBefore, IsBlockFor, FirstKeysOrdered;
    hide LookupItem, Flatten;
    TableOrdered(c, hash, file, md, blocks);
    assert md.bits != [];
    hide Holds, PointRead;
    var meta := OpenTable(file);
    var table := new SSTable(c, hash, file, meta.value);
    r, idx := table.Get(key);
    ReadOfBlocks(c, hash, file, md, blocks, key, idx);
    if Ascending(items) {
      TableAscends(c, hash, file, md, blocks, key);
      forall v ensures LookupItem(items, key) == Some(v) <==> Item(key, Some(v)) in items {
        LookupIsExact(items, key, v);
      }
    }
  }

  lemma ReadOfBlocks(c: Codec, hash: StorageBloom.KeyHash, file: bytes, md: Metadata, blocks: Blocks, key: bytes,
                     idx: nat)
    requires GoodCodec(c) && Holds(c, hash, file, md, blocks) && NonDescending(Flatten(blocks))
    requires IsBlockFor(md.metas, key, idx)
    ensures if idx < |blocks| && BeginsBefore(blocks, key, idx) then
              && HasKey(Flatten(blocks[..idx]), key) && blocks[idx] != [] && blocks[idx][0].key == key
              && PointRead(c, hash, file, md, key, idx) == Ok(blocks[idx][0].value)
            else PointRead(c, hash, file, md, key, idx) == Ok(LookupItem(Flatten(blocks), key))
    ensures Unsplit(blocks, key) ==> PointRead(c, hash, file, md, key, idx) == Ok(LookupItem(Flatten(blocks), key))
  {
    assert idx < |blocks| || !BeginsBefore(blocks, key, idx) by { TableStarts(c, hash, file, md, blocks); }
    hide Holds, NonDescending, PointRead, Flatten, HasKey, BeginsBefore, Unsplit, IsBlockFor;
    if BeginsBefore(blocks, key, idx) {
      LaterBlockAnswers(c, hash, file, md, blocks, key, idx);
    } else {
      PointReadIsLookup(c, hash, file, md, blocks, key, idx);
    }
    if Unsplit(blocks, key) {
      UnsplitMeansWhole(c, hash, file, md, blocks, key, idx);
    }
  }

  lemma TableAscends(c: Codec, hash: StorageBloom.KeyHash, file: bytes, md: Metadata, blocks: Blocks, key: bytes)
    requires Holds(c, hash, file, md, blocks) && Ascending(Flatten(blocks))
    ensures Unsplit(blocks, key)
  {
    TableStarts(c, hash, file, md, blocks);
    hide Holds, Flatten, Ascending, Unsplit;
    AscendingIsUnsplit(blocks, key);
  }

  /** The parse loop of `search_block`. */
  method SearchBlock(block: bytes, key: bytes) returns (r: Result<Option<bytes>>)
    ensures r == Search(block, key)
  {
    var buf := block;
    while buf != []
      invariant Search(block, key) == Search(buf, key)
      decreases |buf|
    {
      var parsed := ParseItem(buf);
      if parsed.None? {
        return Err(OutOfBounds);
      }
      var (item, rest) := parsed.value;
      var same := BytesEqual(item.key, key);
      if same {
        return Ok(item.value);
      }
      buf := rest;
    }
    r := Ok(None);
  }

  lemma TableStarts(c: Codec, hash: StorageBloom.KeyHash, file: bytes, md: Metadata, blocks: Blocks)
    requires Holds(c, hash, file, md, blocks)
    ensures StartsMatch(md.metas, blocks)
  {
    hide StoredAt, AllFit, KeysHeld;
    forall i | 0 <= i < |blocks| ensures blocks[i] != [] && md.metas[i].firstKey == blocks[i][0].key {
      assert BlockAt(c, md.kind, file, md.metas[i], blocks[i]);
    }
  }

  /** The filter never hides a key of the table. */
  lemma NotHeldIsAbsent(hash: StorageBloom.KeyHash, bits: bytes, numHashes: nat, items: seq<Item>, key: bytes)
    requires bits != [] && KeysHeld(hash, bits, numHashes, items)
    requires !StorageBloom.MayContain(bits, numHashes, hash(key))
    ensures !HasKey(items, key)
  {
    hide StorageBloom.MayContain;
  }

  // ---------------------------------------------------------------- iterator

  /** The entries at or after `target`. */
  function From(items: seq<Item>, target: bytes): seq<Item> {
    if items == [] then []
    else if Lt(items[0].key, target) then From(items[1..], target)
    else items
  }

  /** A parse position: behind entry `k` of block `i`, with that block loaded. */
  predicate At(blocks: Blocks, i: nat, k: nat, data: bytes, offset: nat) {
    if blocks == [] then i == 0 && k == 0 && data == [] && offset == 0
    else i < |blocks| && k <= |blocks[i]| && data == BlockOf(blocks[i]) && offset == |BlockOf(blocks[i][..k])|
  }

  /** The entries behind a parse position. */
  function RestAt(blocks: Blocks, i: nat, k: nat): seq<Item> {
    if i < |blocks| && k <= |blocks[i]| then blocks[i][k..] + Flatten(blocks[i + 1..]) else []
  }

  class SSTableIterator {
    const table: SSTable
    var blockIdx: nat
    var blockData: bytes
    var blockOffset: nat
    var currentKey: bytes
    var currentValue: Option<bytes>
    var valid: bool
    /** What the table was built from, and how many entries of the current block were parsed. */
    ghost const blocks: Blocks
    ghost var parsed: nat

    ghost predicate Positioned()
      reads this
    {
      At(blocks, blockIdx, parsed, blockData, blockOffset)
    }

    ghost function Rest(): seq<Item>
      reads this
    {
      RestAt(blocks, blockIdx, parsed)
    }

    ghost predicate Valid()
      reads this
    {
      table.BuiltFrom(blocks) && Positioned() && (!valid ==> Rest() == [])
    }

    /** The entries still to come, the current one first. */
    ghost function Remaining(): seq<Item>
      reads this
    {
      if valid then [Item(currentKey, currentValue)] + Rest() else []
    }

    constructor (table: SSTable, ghost blocks: Blocks)
      requires table.BuiltFrom(blocks)
      ensures Valid() && Remaining() == Flatten(blocks) && this.table == table && this.blocks == blocks
    {
      hide SSTable.BuiltFrom, At, RestAt, Flatten;
      this.table, this.blocks := table, blocks;
      blockIdx, blockData, blockOffset, currentKey, currentValue, valid := 0, [], 0, [], None, false;
      parsed := 0;
      new;
      StartOfTable(blocks);
      LoadBlock(0);
      ParseEntry();
    }

    /** `load_block`: an index past the end only ends the iteration. */
    method LoadBlock(idx: nat)
      requires table.BuiltFrom(blocks)
      modifies this
      ensures idx >= |blocks| ==>
                !valid && blockIdx == old(blockIdx) && blockData == old(blockData) && blockOffset == old(blockOffset)
                && parsed == old(parsed)
      ensures idx < |blocks| ==> Positioned() && blockIdx == idx && parsed == 0 && valid == old(valid)
    {
      hide BodyOk, KeysHeld, GoodCodec, AllFit, ReadBlock, StorageBloom.MayContain;
      assert |table.meta.metas| == |blocks| by { TableStarts(table.codec, table.hash, table.file, table.meta, blocks); }
      if idx >= |table.meta.metas| {
        valid := false;
        return;
      }
      HeldBlockIsRead(table.codec, table.hash, table.file, table.meta, blocks, idx);
      var block := ReadBlock(table.codec, table.meta.kind, table.file, table.meta.metas[idx]);
      blockData, blockOffset, blockIdx := block.value, 0, idx;
      parsed := 0;
      assert blocks[idx][..0] == [];
    }

    /** `parse_entry`: the next entry becomes the current one, from the next block if need be. */
    method ParseEntry()
      requires table.BuiltFrom(blocks) && Positioned()
      modifies this
      ensures Valid() && Remaining() == old(Rest())
    {
      hide SSTable.BuiltFrom, At, RestAt;
      NextBlock();
      if blockData == [] || blockOffset >= |blockData| {
        valid := false;
        return;
      }
      TakeEntry();
      assert [old(Rest())[0]] + old(Rest())[1..] == old(Rest());
    }

    /** Parses the entry at the offset, and moves behind it. */
    method TakeEntry()
      requires table.BuiltFrom(blocks) && Positioned() && blockData != [] && blockOffset < |blockData|
      modifies this
      ensures Positioned() && valid && old(Rest()) != []
      ensures Item(currentKey, currentValue) == old(Rest())[0] && Rest() == old(Rest())[1..]
    {
      hide SSTable.BuiltFrom, Holds, At, RestAt, ParseItem, NonEmpty, StartsMatch, AllFit;
      TableOk(table, blocks);
      EntryAt(blocks, blockIdx, parsed, blockData, blockOffset);
      var buf := blockData[blockOffset..];
      var entry := ParseItem(buf);
      var (item, after) := entry.value;
      blockOffset := blockOffset + (|buf| - |after|);
      currentKey, currentValue, valid := item.key, item.value, true;
      parsed := parsed + 1;
    }

    /** Moves to the next block when the current one is used up, if there is one. */
    method NextBlock()
      requires table.BuiltFrom(blocks) && Positioned()
      modifies this
      ensures Positioned() && Rest() == old(Rest())
      ensures blockData == [] || blockOffset >= |blockData| ==> Rest() == []
    {
      hide SSTable.BuiltFrom, Holds, At, RestAt, NonEmpty, StartsMatch, AllFit;
      TableOk(table, blocks);
      EndOfBlock(blocks, blockIdx, parsed, blockData, blockOffset);
      if blockOffset >= |blockData| && blockIdx + 1 < |table.meta.metas| {
        LoadBlock(blockIdx + 1);
        EndOfBlock(blocks, blockIdx, parsed, blockData, blockOffset);
      }
    }

    method Next()
      requires Valid() && valid
      modifies this
      ensures Valid() && Remaining() == old(Remaining())[1..]
    {
      hide SSTable.BuiltFrom, At, RestAt;
      assert Remaining()[1..] == Rest();
      ParseEntry();
    }

    /** Lands on the first entry at or after the target that is not before the block found, or ends. */
    method Seek(target: bytes) returns (ghost idx: nat)
      requires Valid() && NonDescending(Flatten(blocks))
      modifies this
      ensures Valid() && IsBlockFor(table.meta.metas, target, idx) && idx <= |blocks|
      ensures Remaining() == From(Flatten(blocks[idx..]), target)
    {
      hide SSTable.BuiltFrom, Holds, At, RestAt, FirstKeysOrdered, NonDescending, From, StartsMatch, NonEmpty, AllFit;
      TableOk(table, blocks);
      EndOfBlock(blocks, blockIdx, parsed, blockData, blockOffset);
      StartsOrdered(table.meta.metas, blocks);
      var at := FindBlock(table.meta.metas, target);
      idx := at;
      RestOfBlocks(blocks, at);
      hide IsBlockFor, Flatten;
      blockIdx := at;
      LoadBlock(at);
      ParseEntry();
      ghost var goal := From(Flatten(blocks[idx..]), target);
      while valid && Lt(currentKey, target)
        invariant Valid() && From(Remaining(), target) == goal
        decreases |Remaining()|
      {
        FromNext(Remaining(), target);
        Next();
      }
      FromHere(Remaining(), target);
    }
  }

  predicate NonEmpty(blocks: Blocks) {
    forall b :: 0 <= b < |blocks| ==> blocks[b] != [] && AllFit(blocks[b])
  }

  lemma TableOk(table: SSTable, blocks: Blocks)
    requires table.BuiltFrom(blocks)
    ensures StartsMatch(table.meta.metas, blocks) && NonEmpty(blocks) && |table.meta.metas| == |blocks|
  {
    TableFits(table.codec, table.hash, table.file, table.meta, blocks);
    hide Holds, AllFit;
  }

  /** Every block is nonempty, starts with its first key, and fits its fields. */
  lemma TableFits(c: Codec, hash: StorageBloom.KeyHash, file: bytes, md: Metadata, blocks: Blocks)
    requires Holds(c, hash, file, md, blocks)
    ensures StartsMatch(md.metas, blocks) && forall i :: 0 <= i < |blocks| ==> AllFit(blocks[i])
  {
    hide StoredAt, AllFit, KeysHeld;
    forall i | 0 <= i < |blocks|
      ensures blocks[i] != [] && md.metas[i].firstKey == blocks[i][0].key && AllFit(blocks[i])
    {
      assert BlockAt(c, md.kind, file, md.metas[i], blocks[i]);
    }
  }

  /** When a position has used up its block, and what then follows. */
  lemma EndOfBlock(blocks: Blocks, i: nat, k: nat, data: bytes, offset: nat)
    requires At(blocks, i, k, data, offset) && NonEmpty(blocks)
    ensures data == [] <==> blocks == []
    ensures offset >= |data| && i + 1 >= |blocks| ==> RestAt(blocks, i, k) == []
    ensures offset >= |data| && i + 1 < |blocks| ==> RestAt(blocks, i, k) == RestAt(blocks, i + 1, 0)
    ensures k == 0 && blocks != [] ==> offset < |data|
    ensures blocks == [] ==> i == 0 && k == 0
  {
    hide BlockOf, Flatten, RestAt;
    if blocks != [] {
      OffsetInBlock(blocks, i, k);
      BlockUsedUp(blocks, i);
    }
    NoRest(blocks, i, k);
  }

  /** Behind the last entry of a block comes the next block, if there is one. */
  lemma BlockUsedUp(blocks: Blocks, i: nat)
    requires i < |blocks|
    ensures RestAt(blocks, i, |blocks[i]|) == if i + 1 < |blocks| then RestAt(blocks, i + 1, 0) else []
  {
    hide Flatten;
    if i + 1 < |blocks| {
      FlattenFrom(blocks, i + 1);
      assert blocks[i + 1][0..] == blocks[i + 1];
    } else {
      assert blocks[i + 1..] == [] && Flatten<Item>([]) == [] by { NoBlocks(); }
    }
  }

  lemma NoRest(blocks: Blocks, i: nat, k: nat)
    ensures i >= |blocks| ==> RestAt(blocks, i, k) == []
  {
  }

  /** The entry at a position that has not used up its block. */
  lemma EntryAt(blocks: Blocks, i: nat, k: nat, data: bytes, offset: nat)
    requires At(blocks, i, k, data, offset) && offset < |data|
    requires NonEmpty(blocks)
    ensures ParseItem(data[offset..]).Some?
    ensures var (item, after) := ParseItem(data[offset..]).value;
            && RestAt(blocks, i, k) != [] && item == RestAt(blocks, i, k)[0]
            && RestAt(blocks, i, k + 1) == RestAt(blocks, i, k)[1..]
            && At(blocks, i, k + 1, data, offset + (|data[offset..]| - |after|))
  {
    OffsetInBlock(blocks, i, k);
    var items := blocks[i];
    BlockAround(items, k);
    assert Fits(items[k]);
    ItemComesBack(items[k], BlockOf(items[k + 1..]));
    RestAfter(items, k, Flatten(blocks[i + 1..]));
    hide BlockOf, ParseItem, EncodeItem, Flatten, AllFit;
  }

  lemma RestAfter(items: seq<Item>, k: nat, after: seq<Item>)
    requires k < |items|
    ensures items[k..] + after != [] && (items[k..] + after)[0] == items[k]
    ensures (items[k..] + after)[1..] == items[k + 1..] + after
  {
  }

  /** An offset is at the end of a block exactly behind its last entry. */
  lemma OffsetInBlock(blocks: Blocks, i: nat, k: nat)
    requires i < |blocks| && blocks[i] != [] && k <= |blocks[i]|
    ensures |BlockOf(blocks[i][..k])| >= |BlockOf(blocks[i])| <==> k == |blocks[i]|
    ensures BlockOf(blocks[i]) != []
  {
    var items := blocks[i];
    assert items == items[..k] + items[k..];
    BlockConcat(items[..k], items[k..]);
    BlockEmptyIff(items[k..]);
    BlockEmptyIff(items);
  }

  lemma FromHere(items: seq<Item>, target: bytes)
    requires items != [] ==> !Lt(items[0].key, target)
    ensures From(items, target) == items
  {
  }

  lemma FromNext(items: seq<Item>, target: bytes)
    requires items != [] && Lt(items[0].key, target)
    ensures From(items, target) == From(items[1..], target)
  {
  }

  /** Entries below the target can be skipped. */
  lemma {:induction false} FromSkips(a: seq<Item>, b: seq<Item>, target: bytes)
    requires forall i :: 0 <= i < |a| ==> Lt(a[i].key, target)
    ensures From(a + b, target) == From(b, target)
    decreases |a|
  {
    if a == [] {
      assert a + b == b;
    } else {
      assert (a + b)[1..] == a[1..] + b;
      FromSkips(a[1..], b, target);
    }
  }

  lemma {:induction false} FromIsSuffix(items: seq<Item>, target: bytes)
    ensures |From(items, target)| <= |items|
  {
    if items != [] {
      FromIsSuffix(items[1..], target);
    }
  }

  /** An entry at or after the target is not skipped. */
  lemma {:induction false} FromKeeps(a: seq<Item>, b: seq<Item>, target: bytes)
    requires a != [] && !Lt(a[|a| - 1].key, target)
    ensures |From(a + b, target)| > |b|
    decreases |a|
  {
    if Lt(a[0].key, target) {
      assert (a + b)[1..] == a[1..] + b;
      FromKeeps(a[1..], b, target);
    }
  }

  /** From the block found on, `seek` sees all entries at or after the target precisely when none is before it. */
  lemma SeekIsExactly(blocks: Blocks, metas: seq<BlockMeta>, target: bytes, idx: nat)
    requires StartsMatch(metas, blocks) && NonDescending(Flatten(blocks))
    requires IsBlockFor(metas, target, idx)
    ensures idx <= |blocks|
    ensures From(Flatten(blocks[idx..]), target) == From(Flatten(blocks), target) <==>
            !BeginsBefore(blocks, target, idx)
  {
    if metas == [] {
      assert blocks[idx..] == blocks;
    } else {
      var a, b, c := Flatten(blocks[..idx]), blocks[idx], Flatten(blocks[idx + 1..]);
      FlattenAround(blocks, idx);
      FlattenFrom(blocks, idx);
      LastBefore(blocks, idx);
      hide Flatten, From;
      if BeginsBefore(blocks, target, idx) {
        LtIrreflexive(target);
        FromKeeps(a, b + c, target);
        FromIsSuffix(b + c, target);
      } else {
        NoneBefore(metas, blocks, target, idx);
        OrderedParts(a, b, c, Flatten(blocks));
        hide NonDescending;
        LtIsStrictTotalOrder();
        forall i | 0 <= i < |a| ensures Lt(a[i].key, target) {
          assert a[i].key != target;
        }
        FromSkips(a, b + c, target);
      }
    }
  }

  /** Whatever block the search finds, `seek` misses no entry, if and only if no block boundary splits the target. */
  lemma SeekExactIffUnsplit(c: Codec, hash: StorageBloom.KeyHash, file: bytes, md: Metadata, blocks: Blocks,
                            target: bytes)
    requires Holds(c, hash, file, md, blocks) && NonDescending(Flatten(blocks))
    ensures Unsplit(blocks, target) <==>
            forall idx: nat | IsBlockFor(md.metas, target, idx) ::
              idx <= |blocks| && From(Flatten(blocks[idx..]), target) == From(Flatten(blocks), target)
  {
    WholeIffUnsplit(c, hash, file, md, blocks, target);
    TableFits(c, hash, file, md, blocks);
    hide Holds, NonDescending, Flatten, From, BeginsBefore, Unsplit, IsBlockFor;
    forall idx: nat | IsBlockFor(md.metas, target, idx)
      ensures idx <= |blocks|
      ensures From(Flatten(blocks[idx..]), target) == From(Flatten(blocks), target) <==>
              !BeginsBefore(blocks, target, idx)
    {
      SeekIsExactly(blocks, md.metas, target, idx);
    }
  }

  lemma RestOfBlocks(blocks: Blocks, i: nat)
    requires i < |blocks| || i == |blocks| == 0
    ensures RestAt(blocks, i, 0) == Flatten(blocks[i..])
  {
    if i < |blocks| {
      FlattenFrom(blocks, i);
      assert blocks[i][0..] == blocks[i];
    }
  }

  lemma StartOfTable(blocks: Blocks)
    ensures RestAt(blocks, 0, 0) == Flatten(blocks)
    ensures blocks == [] ==> At(blocks, 0, 0, [], 0)
  {
    if blocks != [] {
      FlattenFrom(blocks, 0);
      assert blocks[0..] == blocks && blocks[0][0..] == blocks[0];
    }
  }

  /** A block, around one of its entries. */
  lemma BlockAround(items: seq<Item>, k: nat)
    requires k < |items|
    ensures |BlockOf(items[..k])| <= |BlockOf(items)|
    ensures BlockOf(items)[|BlockOf(items[..k])|..] == EncodeItem(items[k]) + BlockOf(items[k + 1..])
    ensures |BlockOf(items[..k + 1])| == |BlockOf(items[..k])| + |EncodeItem(items[k])|
    ensures |BlockOf(items)| == |BlockOf(items[..k + 1])| + |BlockOf(items[k + 1..])|
  {
    hide BlockOf, EncodeItem;
    assert items[..k + 1] == items[..k] + [items[k]];
    assert items == items[..k] + items[k..] && items[k..] == [items[k]] + items[k + 1..];
    BlockConcat(items[..k], [items[k]]);
    BlockConcat(items[..k], items[k..]);
    BlockConcat([items[k]], items[k + 1..]);
    BlockOfOne(items[k]);
  }
}
