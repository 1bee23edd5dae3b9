/**
 Compaction (crabstash-storage/src/compaction.rs): the merging iterator over tables and the loop that
 passes one entry of each user key on to the builder. A table iterator is the sequence of entries it has
 still to give, as `TableReader.SSTableIterator.Remaining` states it.
 */
module Compaction {
  import opened Bytes
  import opened Simd
  import opened Sequences
  import opened SSTableFormat
  import opened SSTables
  import opened TableReader
  import StorageBloom

  type Input = seq<Item>

  // ---------------------------------------------------------------- what compaction should give

  /** Entry `p` of input `i` comes first for its user key: from the lowest input that holds it. */
  predicate ComesFirst(inputs: seq<Input>, i: nat, p: nat)
    requires i < |inputs| && p < |inputs[i]|
  {
    forall j, q :: 0 <= j < |inputs| && 0 <= q < |inputs[j]| && inputs[j][q].key == inputs[i][p].key ==>
      i < j || (i == j && p <= q)
  }

  predicate IsFirst(inputs: seq<Input>, item: Item) {
    exists i, p :: 0 <= i < |inputs| && 0 <= p < |inputs[i]| && inputs[i][p] == item && ComesFirst(inputs, i, p)
  }

  /** One entry for every user key of any input, tombstones included, in order: the first one. */
  predicate IsCompaction(inputs: seq<Input>, out: seq<Item>) {
    && Ascending(out)
    && (forall a :: 0 <= a < |out| ==> IsFirst(inputs, out[a]))
    && (forall i, p :: 0 <= i < |inputs| && 0 <= p < |inputs[i]| ==> HasKey(out, inputs[i][p].key))
  }

  // ---------------------------------------------------------------- the merging iterator

  /** `current_idx`: the first of the valid iterators whose key is least. */
  predicate IsCurrent(iterators: seq<Input>, idx: nat) {
    && idx < |iterators| && iterators[idx] != []
    && (forall i :: 0 <= i < |iterators| && iterators[i] != [] ==> Le(iterators[idx][0].key, iterators[i][0].key))
    && (forall i :: 0 <= i < idx && iterators[i] != [] ==> Lt(iterators[idx][0].key, iterators[i][0].key))
  }

  class MergedIterator {
    var iterators: seq<Input>

    constructor (iterators: seq<Input>)
      ensures this.iterators == iterators
    {
      this.iterators := iterators;
    }

    predicate IsValid()
      reads this
    {
      exists i :: 0 <= i < |iterators| && iterators[i] != []
    }

    method CurrentIdx() returns (idx: Option<nat>)
      ensures idx.None? <==> !IsValid()
      ensures idx.Some? ==> IsCurrent(iterators, idx.value)
    {
      idx := LeastHead(iterators);
    }

    method Advance() returns (ghost moved: nat)
      modifies this
      ensures !old(IsValid()) ==> iterators == old(iterators)
      ensures old(IsValid()) ==>
                IsCurrent(old(iterators), moved) && iterators == old(iterators)[moved := old(iterators)[moved][1..]]
    {
      var idx := CurrentIdx();
      moved := 0;
      if idx.Some? {
        moved := idx.value;
        iterators := iterators[idx.value := iterators[idx.value][1..]];
      }
    }
  }

  /** `min_by` over the valid iterators; on equal keys the earlier one stays. */
  method LeastHead(iterators: seq<Input>) returns (idx: Option<nat>)
    ensures idx.None? <==> forall i :: 0 <= i < |iterators| ==> iterators[i] == []
    ensures idx.Some? ==> IsCurrent(iterators, idx.value)
  {
    LtIsStrictTotalOrder();
    idx := None;
    for i := 0 to |iterators|
      invariant idx.None? <==> forall j :: 0 <= j < i ==> iterators[j] == []
      invariant idx.Some? ==> idx.value < i && IsCurrent(iterators[..i], idx.value)
    {
      if iterators[i] != [] {
        if idx.None? {
          idx := Some(i);
        } else {
          var ord := CompareBytes(iterators[i][0].key, iterators[idx.value][0].key);
          if ord == Less {
            idx := Some(i);
          }
        }
      }
    }
    assert iterators[..|iterators|] == iterators;
  }

  lemma CurrentIsUnique(iterators: seq<Input>, a: nat, b: nat)
    requires IsCurrent(iterators, a) && IsCurrent(iterators, b)
    ensures a == b
  {
    LtIsStrictTotalOrder();
  }

  // ---------------------------------------------------------------- how far the inputs are

  predicate Suffixes(inputs: seq<Input>, pos: seq<nat>, rests: seq<Input>) {
    && |pos| == |inputs| == |rests|
    && forall i :: 0 <= i < |inputs| ==> pos[i] <= |inputs[i]| && rests[i] == inputs[i][pos[i]..]
  }

  /** Everything read has its key in the output, and nothing still to come is before the output's end. */
  predicate ReadInto(inputs: seq<Input>, pos: seq<nat>, out: seq<Item>)
    requires |pos| == |inputs|
  {
    forall i, p :: 0 <= i < |inputs| && 0 <= p < pos[i] && p < |inputs[i]| ==> HasKey(out, inputs[i][p].key)
  }

  predicate RestFrom(rests: seq<Input>, out: seq<Item>) {
    out != [] ==> forall i :: 0 <= i < |rests| && rests[i] != [] ==> Le(out[|out| - 1].key, rests[i][0].key)
  }

  lemma KeysUpToLast(out: seq<Item>, key: bytes)
    requires Ascending(out) && HasKey(out, key)
    ensures out != [] && Le(key, out[|out| - 1].key)
  {
    var a :| 0 <= a < |out| && out[a].key == key;
    assert a < |out| - 1 ==> Lt(out[a].key, out[|out| - 1].key);
  }

  /** A current entry with a new key comes first among all inputs. */
  lemma CurrentComesFirst(inputs: seq<Input>, pos: seq<nat>, rests: seq<Input>, out: seq<Item>, idx: nat)
    requires forall i :: 0 <= i < |inputs| ==> NonDescending(inputs[i])
    requires Suffixes(inputs, pos, rests) && IsCurrent(rests, idx) && Ascending(out)
    requires ReadInto(inputs, pos, out) && RestFrom(rests, out)
    requires out != [] ==> out[|out| - 1].key != rests[idx][0].key
    ensures rests[idx][0] == inputs[idx][pos[idx]] && ComesFirst(inputs, idx, pos[idx])
    ensures out != [] ==> Lt(out[|out| - 1].key, rests[idx][0].key)
  {
    var key := rests[idx][0].key;
    forall j, q | 0 <= j < |inputs| && 0 <= q < |inputs[j]| && inputs[j][q].key == key
      ensures idx < j || (idx == j && pos[idx] <= q)
    {
      UnreadKey(inputs, pos, rests, out, idx, j, q);
    }
  }

  lemma UnreadKey(inputs: seq<Input>, pos: seq<nat>, rests: seq<Input>, out: seq<Item>, idx: nat, j: nat, q: nat)
    requires forall i :: 0 <= i < |inputs| ==> NonDescending(inputs[i])
    requires Suffixes(inputs, pos, rests) && IsCurrent(rests, idx) && Ascending(out)
    requires ReadInto(inputs, pos, out) && RestFrom(rests, out)
    requires out != [] ==> out[|out| - 1].key != rests[idx][0].key
    requires j < |inputs| && q < |inputs[j]| && inputs[j][q].key == rests[idx][0].key
    ensures pos[j] <= q && idx <= j
  {
    var key := rests[idx][0].key;
    LtIsStrictTotalOrder();
    if q < pos[j] {
      KeysUpToLast(out, key);
    }
    assert pos[j] <= q;
    assert rests[j][0] == inputs[j][pos[j]];
    assert Le(inputs[j][pos[j]].key, inputs[j][q].key);
    hide NonDescending, ReadInto, RestFrom, Ascending, Suffixes;
  }

  /** Reading the current entry, once its key is in the output, keeps the facts about the inputs. */
  lemma AdvanceKeeps(inputs: seq<Input>, pos: seq<nat>, rests: seq<Input>, out: seq<Item>, idx: nat)
    requires forall i :: 0 <= i < |inputs| ==> NonDescending(inputs[i])
    requires Suffixes(inputs, pos, rests) && IsCurrent(rests, idx)
    requires ReadInto(inputs, pos, out) && out != [] && out[|out| - 1].key == rests[idx][0].key
    ensures var pos', rests' := pos[idx := pos[idx] + 1], rests[idx := rests[idx][1..]];
            Suffixes(inputs, pos', rests') && ReadInto(inputs, pos', out) && RestFrom(rests', out)
  {
    assert inputs[idx][pos[idx]..][1..] == inputs[idx][pos[idx] + 1..];
    assert HasKey(out, rests[idx][0].key);
    if |rests[idx]| > 1 {
      assert Le(inputs[idx][pos[idx]].key, inputs[idx][pos[idx] + 1].key);
    }
    hide HasKey, NonDescending;
  }

  function Left(rests: seq<Input>): nat {
    if rests == [] then 0 else Left(rests[..|rests| - 1]) + |rests[|rests| - 1]|
  }

  lemma {:induction false} AdvanceShrinks(rests: seq<Input>, idx: nat)
    requires idx < |rests| && rests[idx] != []
    ensures Left(rests[idx := rests[idx][1..]]) < Left(rests)
  {
    var n := |rests| - 1;
    if idx < n {
      AdvanceShrinks(rests[..n], idx);
      assert rests[idx := rests[idx][1..]][..n] == rests[..n][idx := rests[idx][1..]];
    } else {
      assert rests[idx := rests[idx][1..]][..n] == rests[..n];
    }
  }

  lemma OutputGrows(inputs: seq<Input>, pos: seq<nat>, out: seq<Item>, item: Item)
    requires |pos| == |inputs| && ReadInto(inputs, pos, out) && Ascending(out)
    requires out != [] ==> Lt(out[|out| - 1].key, item.key)
    ensures ReadInto(inputs, pos, out + [item]) && Ascending(out + [item])
  {
    LtIsStrictTotalOrder();
    forall key | HasKey(out, key) ensures HasKey(out + [item], key) {
      HasKeyConcat(out, [item], key);
    }
    hide HasKey;
  }

  ghost predicate Inv(inputs: seq<Input>, pos: seq<nat>, rests: seq<Input>, out: seq<Item>) {
    && (forall i :: 0 <= i < |inputs| ==> NonDescending(inputs[i]))
    && Suffixes(inputs, pos, rests) && ReadInto(inputs, pos, out) && RestFrom(rests, out) && Ascending(out)
    && forall a :: 0 <= a < |out| ==> IsFirst(inputs, out[a])
  }

  /** The output after the current entry: longer by it unless its key was the last one given. */
  function Grown(out: seq<Item>, item: Item): seq<Item> {
    if out != [] && out[|out| - 1].key == item.key then out else out + [item]
  }

  lemma StepKeepsInv(inputs: seq<Input>, pos: seq<nat>, rests: seq<Input>, out: seq<Item>, idx: nat)
    requires Inv(inputs, pos, rests, out) && IsCurrent(rests, idx)
    ensures Inv(inputs, pos[idx := pos[idx] + 1], rests[idx := rests[idx][1..]], Grown(out, rests[idx][0]))
  {
    var item := rests[idx][0];
    if Grown(out, item) != out {
      CurrentComesFirst(inputs, pos, rests, out, idx);
      FirstAt(inputs, idx, pos[idx]);
      OutputGrows(inputs, pos, out, item);
    }
    hide NonDescending, ReadInto, Ascending, IsFirst, ComesFirst;
    AdvanceKeeps(inputs, pos, rests, Grown(out, item), idx);
    hide Suffixes, RestFrom;
  }

  /** One round of the loop: the current entry is passed on or dropped, and its iterator moves on. */
  method Round(merged: MergedIterator, given: seq<Item>, lastKey: Option<bytes>,
               ghost inputs: seq<Input>, ghost was: seq<nat>, ghost had: seq<Input>)
    returns (out: seq<Item>, last: Option<bytes>, ghost pos: seq<nat>, ghost rests: seq<Input>)
    requires merged.IsValid() && merged.iterators == had
    requires |was| == |had| && Inv(inputs, was, had, given) && lastKey == LastKey(given)
    modifies merged
    ensures merged.iterators == rests
    ensures |pos| == |rests| && Inv(inputs, pos, rests, out) && last == LastKey(out)
    ensures Left(rests) < Left(had)
  {
    hide Inv, Left, IsCurrent, Grown;
    var idx := merged.CurrentIdx();
    CurrentHasEntry(had, idx.value);
    pos, rests := was[idx.value := was[idx.value] + 1], had[idx.value := had[idx.value][1..]];
    StepKeepsInv(inputs, was, had, given, idx.value);
    AdvanceShrinks(had, idx.value);
    out, last := Pass(given, lastKey, merged.iterators[idx.value][0]);
    ghost var moved := merged.Advance();
    CurrentIsUnique(had, idx.value, moved);
  }

  /** The compaction loop; each entry that `out` gains is one `add` to the builder. */
  method Compact(inputs: seq<Input>) returns (out: seq<Item>)
    requires forall i :: 0 <= i < |inputs| ==> NonDescending(inputs[i])
    ensures IsCompaction(inputs, out)
  {
    var merged := new MergedIterator(inputs);
    var lastKey: Option<bytes> := None;
    out := [];
    ghost var pos: seq<nat> := seq(|inputs|, _ => 0);
    ghost var rests := inputs;
    NothingRead(inputs, pos);
    hide Inv, Left, NonDescending, IsCompaction;
    while merged.IsValid()
      invariant fresh(merged) && merged.iterators == rests
      invariant |pos| == |rests| && Inv(inputs, pos, rests, out)
      invariant lastKey == LastKey(out)
      decreases Left(rests)
    {
      out, lastKey, pos, rests := Round(merged, out, lastKey, inputs, pos, rests);
    }
    AllRead(inputs, pos, rests, out);
  }

  function LastKey(out: seq<Item>): Option<bytes> {
    if out == [] then None else Some(out[|out| - 1].key)
  }

  /** The body of the loop: an entry with the last key is dominated and dropped. */
  method Pass(given: seq<Item>, lastKey: Option<bytes>, item: Item) returns (out: seq<Item>, last: Option<bytes>)
    requires lastKey == LastKey(given)
    ensures out == Grown(given, item) && last == LastKey(out)
  {
    out, last := given, lastKey;
    var dominated := lastKey.Some? && lastKey.value == item.key;
    if !dominated {
      out := given + [item];
      last := Some(item.key);
    }
  }

  lemma CurrentHasEntry(rests: seq<Input>, idx: nat)
    requires IsCurrent(rests, idx)
    ensures idx < |rests| && rests[idx] != []
  {
  }

  lemma NothingRead(inputs: seq<Input>, pos: seq<nat>)
    requires forall i :: 0 <= i < |inputs| ==> NonDescending(inputs[i])
    requires |pos| == |inputs| && forall i :: 0 <= i < |inputs| ==> pos[i] == 0
    ensures Inv(inputs, pos, inputs, [])
  {
    hide NonDescending;
  }

  lemma FirstAt(inputs: seq<Input>, i: nat, p: nat)
    requires i < |inputs| && p < |inputs[i]| && ComesFirst(inputs, i, p)
    ensures IsFirst(inputs, inputs[i][p])
  {
  }

  lemma AllRead(inputs: seq<Input>, pos: seq<nat>, rests: seq<Input>, out: seq<Item>)
    requires Inv(inputs, pos, rests, out) && forall i :: 0 <= i < |rests| ==> rests[i] == []
    ensures IsCompaction(inputs, out)
  {
    hide HasKey, IsFirst, NonDescending, Ascending;
  }

  // ---------------------------------------------------------------- what it means for readers

  /** A point read of several tables in order: the first table that has the key decides. */
  function LookupInOrder(inputs: seq<Input>, key: bytes): Option<bytes> {
    if inputs == [] then None
    else if HasKey(inputs[0], key) then LookupItem(inputs[0], key)
    else LookupInOrder(inputs[1..], key)
  }

  lemma {:induction false} FirstDecides(inputs: seq<Input>, i: nat, p: nat)
    requires i < |inputs| && p < |inputs[i]| && ComesFirst(inputs, i, p)
    ensures LookupInOrder(inputs, inputs[i][p].key) == inputs[i][p].value
  {
    var key := inputs[i][p].key;
    if i == 0 {
      FoundAt(inputs[0], p);
    } else {
      assert !HasKey(inputs[0], key);
      forall j, q | 0 <= j < |inputs[1..]| && 0 <= q < |inputs[1..][j]| && inputs[1..][j][q].key == key
        ensures i - 1 < j || (i - 1 == j && p <= q)
      {
        assert inputs[1..][j] == inputs[j + 1];
      }
      FirstDecides(inputs[1..], i - 1, p);
    }
  }

  lemma {:induction false} NoneHasKey(inputs: seq<Input>, key: bytes)
    requires forall i :: 0 <= i < |inputs| ==> !HasKey(inputs[i], key)
    ensures LookupInOrder(inputs, key) == None
  {
    hide HasKey;
    if inputs != [] {
      NoneHasKey(inputs[1..], key);
    }
  }

  /**
   A read of the compacted table answers for every key what reading its inputs in their order answered:
   with the upper level first, the upper level overrides the lower.
   */
  lemma CompactionKeepsReads(inputs: seq<Input>, out: seq<Item>, key: bytes)
    requires IsCompaction(inputs, out)
    ensures LookupItem(out, key) == LookupInOrder(inputs, key)
  {
    if HasKey(out, key) {
      var a :| 0 <= a < |out| && out[a].key == key;
      forall q | 0 <= q < a ensures out[q].key != out[a].key {
        LtIrreflexive(key);
        assert Lt(out[q].key, out[a].key);
      }
      FoundAt(out, a);
      assert IsFirst(inputs, out[a]);
      var i, p :| 0 <= i < |inputs| && 0 <= p < |inputs[i]| && inputs[i][p] == out[a] && ComesFirst(inputs, i, p);
      FirstDecides(inputs, i, p);
    } else {
      LookupAbsent(out, key);
      forall i | 0 <= i < |inputs| ensures !HasKey(inputs[i], key) {
        if p :| 0 <= p < |inputs[i]| && inputs[i][p].key == key {
          assert HasKey(out, inputs[i][p].key);
        }
      }
      NoneHasKey(inputs, key);
    }
  }

  /** So does any point read of the file the compacted entries are written to. */
  lemma CompactedFileKeepsReads(c: Codec, hash: StorageBloom.KeyHash, file: bytes, md: Metadata, blocks: Blocks,
                                idx: nat, inputs: seq<Input>, out: seq<Item>, key: bytes)
    requires IsCompaction(inputs, out)
    requires GoodCodec(c) && Holds(c, hash, file, md, blocks) && Flatten(blocks) == out
    requires IsBlockFor(md.metas, key, idx)
    ensures PointRead(c, hash, file, md, key, idx) == Ok(LookupInOrder(inputs, key))
  {
    assert Ascending(out);
    AscendingIsNonDescending(out);
    CompactionKeepsReads(inputs, out, key);
    hide IsCompaction, Ascending, NonDescending, Holds, IsBlockFor, PointRead, LookupInOrder;
    TableAscends(c, hash, file, md, blocks, key);
    ReadOfBlocks(c, hash, file, md, blocks, key, idx);
  }
}
