/**
 The merging iterators of crabstash-storage/src/iterator.rs. An input iterator is the sequence of entries
 it has still to give: the current entry is its head, and `next` drops it.
 */
module Iterators {
  import opened Bytes
  import opened Simd
  import opened LockModes

  datatype Entry = Entry(key: Key, value: Option<bytes>)

  type Input = seq<Entry>

  predicate SortedByKey(s: Input) {
    forall i, j :: 0 <= i < j < |s| ==> KeyLe(s[i].key, s[j].key)
  }

  // ---------------------------------------------------------------- what a merge should give

  /** Entry `p` of input `i` wins its user key: newest, then from the larger index, then the earlier one. */
  predicate Wins(inputs: seq<Input>, i: nat, p: nat)
    requires i < |inputs| && p < |inputs[i]|
  {
    forall j, q :: 0 <= j < |inputs| && 0 <= q < |inputs[j]| && inputs[j][q].key.data == inputs[i][p].key.data ==>
      match CompareKeys(inputs[i][p].key, inputs[j][q].key)
      case Less => true
      case Equal => j < i || (j == i && p <= q)
      case Greater => false
  }

  predicate IsWinner(inputs: seq<Input>, e: Entry) {
    exists i, p :: 0 <= i < |inputs| && 0 <= p < |inputs[i]| && inputs[i][p] == e && Wins(inputs, i, p)
  }

  predicate AscendingData(s: seq<Entry>) {
    forall a, b :: 0 <= a < b < |s| ==> Lt(s[a].key.data, s[b].key.data)
  }

  predicate HasData(s: seq<Entry>, data: bytes) {
    exists a :: 0 <= a < |s| && s[a].key.data == data
  }

  /** One entry for every user key of any input, in order: the winner. */
  ghost predicate IsMerge(inputs: seq<Input>, out: seq<Entry>) {
    && AscendingData(out)
    && (forall a :: 0 <= a < |out| ==> IsWinner(inputs, out[a]))
    && (forall i, p :: 0 <= i < |inputs| && 0 <= p < |inputs[i]| ==> HasData(out, inputs[i][p].key.data))
  }

  // ---------------------------------------------------------------- the heap

  /** The iterators in the heap, by their index; the heap order is key ascending, then index descending. */
  type Heap = map<nat, Input>

  predicate Before(a: Key, i: nat, b: Key, j: nat) {
    match CompareKeys(a, b)
    case Less => true
    case Equal => i >= j
    case Greater => false
  }

  /** `BinaryHeap::pop`: the entry that all others come after. */
  method Top(heap: Heap) returns (best: nat)
    requires heap != map[] && forall i :: i in heap ==> heap[i] != []
    ensures best in heap && forall i :: i in heap ==> Before(heap[best][0].key, best, heap[i][0].key, i)
  {
    hide CompareKeys;
    assert heap.Keys != {};
    best :| best in heap;
    SelfBefore(heap[best][0].key, best);
    var remaining := heap.Keys;
    while remaining != {}
      invariant remaining <= heap.Keys && best in heap
      invariant forall i :: i in heap && i !in remaining ==> Before(heap[best][0].key, best, heap[i][0].key, i)
      decreases remaining
    {
      var i :| i in remaining;
      remaining := remaining - {i};
      BeforeIsTotal(heap[best][0].key, best, heap[i][0].key, i);
      if !Before(heap[best][0].key, best, heap[i][0].key, i) {
        forall k | k in heap && k !in remaining && k != i ensures Before(heap[i][0].key, i, heap[k][0].key, k) {
          BeforeTransitive(heap[i][0].key, i, heap[best][0].key, best, heap[k][0].key, k);
        }
        SelfBefore(heap[i][0].key, i);
        best := i;
      }
    }
  }

  lemma SelfBefore(a: Key, i: nat)
    ensures Before(a, i, a, i)
  {
    KeyOrderIsTotal(a, a, a);
  }

  lemma BeforeIsTotal(a: Key, i: nat, b: Key, j: nat)
    ensures Before(a, i, b, j) || Before(b, j, a, i)
  {
    KeyOrderIsTotal(a, b, a);
  }

  lemma BeforeTransitive(a: Key, i: nat, b: Key, j: nat, c: Key, k: nat)
    requires Before(a, i, b, j) && Before(b, j, c, k)
    ensures Before(a, i, c, k)
  {
    KeyOrderIsTotal(a, b, c);
    KeyOrderIsTotal(c, b, a);
    KeyOrderIsTotal(a, c, a);
    hide CompareKeys;
  }

  // ---------------------------------------------------------------- how far the inputs are

  /** Input `i` was read up to `pos[i]`, and the rest is in `held`. */
  predicate Suffixes(inputs: seq<Input>, pos: seq<nat>, held: Heap) {
    && |pos| == |inputs|
    && (forall i :: 0 <= i < |inputs| ==> pos[i] <= |inputs[i]|)
    && (forall i :: i in held ==> i < |inputs| && held[i] == inputs[i][pos[i]..] && held[i] != [])
    && (forall i :: 0 <= i < |inputs| && pos[i] < |inputs[i]| ==> i in held)
  }

  /** What was read has smaller user keys than `data`, or that key itself if `inclusive`. */
  predicate ReadBelow(inputs: seq<Input>, pos: seq<nat>, data: bytes, inclusive: bool)
    requires |pos| == |inputs|
  {
    forall i, p :: 0 <= i < |inputs| && 0 <= p < pos[i] && p < |inputs[i]| ==>
      Lt(inputs[i][p].key.data, data) || (inclusive && inputs[i][p].key.data == data)
  }

  /** What is still to come has user keys from `data` on. */
  predicate HeldFrom(held: Heap, data: bytes) {
    forall i :: i in held && held[i] != [] ==> Le(data, held[i][0].key.data)
  }

  /** Everything read has its user key among what was given out. */
  predicate Covered(inputs: seq<Input>, pos: seq<nat>, out: seq<Entry>)
    requires |pos| == |inputs|
  {
    forall i, p :: 0 <= i < |inputs| && 0 <= p < pos[i] && p < |inputs[i]| ==> HasData(out, inputs[i][p].key.data)
  }

  /** The least of the heads wins its user key. */
  lemma LeastHeadWins(inputs: seq<Input>, pos: seq<nat>, held: Heap, best: nat)
    requires forall i :: 0 <= i < |inputs| ==> SortedByKey(inputs[i])
    requires Suffixes(inputs, pos, held) && best in held
    requires forall i :: i in held ==> Before(held[best][0].key, best, held[i][0].key, i)
    requires ReadBelow(inputs, pos, held[best][0].key.data, false)
    ensures Wins(inputs, best, pos[best]) && inputs[best][pos[best]] == held[best][0]
  {
    var e := held[best][0];
    forall j, q | 0 <= j < |inputs| && 0 <= q < |inputs[j]| && inputs[j][q].key.data == e.key.data
      ensures match CompareKeys(e.key, inputs[j][q].key)
              case Less => true
              case Equal => j < best || (j == best && pos[best] <= q)
              case Greater => false
    {
      HeadBeatsEntry(inputs, pos, held, best, j, q);
    }
    hide CompareKeys, SortedByKey, ReadBelow, Suffixes;
  }

  lemma HeadBeatsEntry(inputs: seq<Input>, pos: seq<nat>, held: Heap, best: nat, j: nat, q: nat)
    requires forall i :: 0 <= i < |inputs| ==> SortedByKey(inputs[i])
    requires Suffixes(inputs, pos, held) && best in held
    requires forall i :: i in held ==> Before(held[best][0].key, best, held[i][0].key, i)
    requires ReadBelow(inputs, pos, held[best][0].key.data, false)
    requires j < |inputs| && q < |inputs[j]| && inputs[j][q].key.data == held[best][0].key.data
    ensures pos[j] <= q
    ensures match CompareKeys(held[best][0].key, inputs[j][q].key)
            case Less => true
            case Equal => j <= best
            case Greater => false
  {
    var e := held[best][0];
    LtIrreflexive(e.key.data);
    assert pos[j] <= q;
    var head := held[j][0];
    assert head == inputs[j][pos[j]];
    assert KeyLe(head.key, inputs[j][q].key) by { KeyOrderIsTotal(head.key, head.key, head.key); }
    assert Before(e.key, best, head.key, j);
    hide ReadBelow, SortedByKey, Suffixes;
    KeyOrderIsTotal(e.key, head.key, inputs[j][q].key);
    KeyOrderIsTotal(inputs[j][q].key, head.key, e.key);
    KeyOrderIsTotal(e.key, inputs[j][q].key, e.key);
    hide CompareKeys;
  }

  // ---------------------------------------------------------------- moving one input on

  /** The heap after `next` on one iterator: pushed back while it is valid. */
  function Advanced(held: Heap, i: nat): Heap
    requires i in held && held[i] != []
  {
    if |held[i]| > 1 then held[i := held[i][1..]] else held - {i}
  }

  lemma AdvanceKeepsSuffixes(inputs: seq<Input>, pos: seq<nat>, held: Heap, i: nat)
    requires Suffixes(inputs, pos, held) && i in held
    ensures pos[i] < |inputs[i]| && inputs[i][pos[i]] == held[i][0]
    ensures Suffixes(inputs, pos[i := pos[i] + 1], Advanced(held, i))
  {
    assert inputs[i][pos[i]..][1..] == inputs[i][pos[i] + 1..];
  }

  lemma AdvanceKeepsBelow(inputs: seq<Input>, pos: seq<nat>, i: nat, data: bytes)
    requires |pos| == |inputs| && i < |inputs| && pos[i] < |inputs[i]|
    requires ReadBelow(inputs, pos, data, true) && inputs[i][pos[i]].key.data == data
    ensures ReadBelow(inputs, pos[i := pos[i] + 1], data, true)
  {
  }

  lemma AdvanceKeepsCovered(inputs: seq<Input>, pos: seq<nat>, i: nat, out: seq<Entry>)
    requires |pos| == |inputs| && i < |inputs| && pos[i] < |inputs[i]|
    requires Covered(inputs, pos, out) && HasData(out, inputs[i][pos[i]].key.data)
    ensures Covered(inputs, pos[i := pos[i] + 1], out)
  {
    hide HasData;
  }

  lemma KeyLeData(a: Key, b: Key)
    requires KeyLe(a, b)
    ensures Le(a.data, b.data)
  {
    LtTotal(a.data, b.data);
  }

  lemma AdvanceKeepsFrom(inputs: seq<Input>, pos: seq<nat>, held: Heap, i: nat, data: bytes)
    requires Suffixes(inputs, pos, held) && i in held && SortedByKey(inputs[i])
    requires HeldFrom(held, data) && held[i][0].key.data == data
    ensures HeldFrom(Advanced(held, i), data)
  {
    if |held[i]| > 1 {
      assert KeyLe(inputs[i][pos[i]].key, inputs[i][pos[i] + 1].key);
      KeyLeData(held[i][0].key, held[i][1].key);
    }
    hide Le, KeyLe, Suffixes;
  }

  /** Reading up to a key and everything before a later head. */
  lemma BelowLater(inputs: seq<Input>, pos: seq<nat>, d: bytes, later: bytes)
    requires |pos| == |inputs| && ReadBelow(inputs, pos, d, true) && Lt(d, later)
    ensures ReadBelow(inputs, pos, later, false)
  {
    forall i, p | 0 <= i < |inputs| && 0 <= p < pos[i] && p < |inputs[i]| ensures Lt(inputs[i][p].key.data, later) {
      if inputs[i][p].key.data != d {
        LtTransitive(inputs[i][p].key.data, d, later);
      }
    }
    hide Lt;
  }

  lemma HasDataMore(out: seq<Entry>, e: Entry, data: bytes)
    ensures HasData(out, data) ==> HasData(out + [e], data)
    ensures HasData(out + [e], e.key.data)
  {
    assert (out + [e])[|out|] == e;
    if a :| 0 <= a < |out| && out[a].key.data == data {
      assert (out + [e])[a] == out[a];
    }
  }

  lemma CoveredMore(inputs: seq<Input>, pos: seq<nat>, out: seq<Entry>, e: Entry)
    requires |pos| == |inputs| && Covered(inputs, pos, out)
    ensures Covered(inputs, pos, out + [e])
  {
    hide HasData;
    forall i, p | 0 <= i < |inputs| && 0 <= p < pos[i] && p < |inputs[i]|
      ensures HasData(out + [e], inputs[i][p].key.data)
    {
      HasDataMore(out, e, inputs[i][p].key.data);
    }
  }

  /** The number of entries still to be read. */
  function Left(inputs: seq<Input>, pos: seq<nat>): nat
    requires |pos| == |inputs|
  {
    if inputs == [] then 0
    else
      var n := |inputs| - 1;
      Left(inputs[..n], pos[..n]) + if pos[n] <= |inputs[n]| then |inputs[n]| - pos[n] else 0
  }

  lemma {:induction false} AdvanceShrinks(inputs: seq<Input>, pos: seq<nat>, i: nat)
    requires |pos| == |inputs| && i < |inputs| && pos[i] < |inputs[i]|
    ensures Left(inputs, pos[i := pos[i] + 1]) < Left(inputs, pos)
  {
    var n := |inputs| - 1;
    if i < n {
      AdvanceShrinks(inputs[..n], pos[..n], i);
      assert pos[i := pos[i] + 1][..n] == pos[..n][i := pos[i] + 1];
    } else {
      assert pos[i := pos[i] + 1][..n] == pos[..n];
    }
  }

  // ---------------------------------------------------------------- the merging iterator

  datatype HeapEntry = HeapEntry(index: nat, iter: Input)

  /** What was given out are winners, in order, and covers everything read. */
  ghost predicate ProgressOk(inputs: seq<Input>, pos: seq<nat>, given: seq<Entry>)
    ensures ProgressOk(inputs, pos, given) ==> |pos| == |inputs|
  {
    && (forall i :: 0 <= i < |inputs| ==> SortedByKey(inputs[i]))
    && |pos| == |inputs| && Covered(inputs, pos, given) && AscendingData(given)
    && forall a :: 0 <= a < |given| ==> IsWinner(inputs, given[a])
  }

  /** What moving on an entry whose user key was given out does to the progress facts. */
  lemma AdvanceFacts(inputs: seq<Input>, pos: seq<nat>, held: Heap, i: nat, given: seq<Entry>, d: bytes)
    requires ProgressOk(inputs, pos, given) && Suffixes(inputs, pos, held)
    requires i in held && held[i] != [] && held[i][0].key.data == d
    requires ReadBelow(inputs, pos, d, true) && HeldFrom(held, d) && HasData(given, d)
    ensures i < |pos|
    ensures var pos', held' := pos[i := pos[i] + 1], Advanced(held, i);
            && ProgressOk(inputs, pos', given) && Suffixes(inputs, pos', held') && ReadBelow(inputs, pos', d, true)
            && HeldFrom(held', d) && Left(inputs, pos') < Left(inputs, pos)
  {
    AdvanceKeepsSuffixes(inputs, pos, held, i);
    hide Suffixes, ReadBelow, Covered, HeldFrom, SortedByKey, HasData, Left, AscendingData, IsWinner;
    AdvanceKeepsBelow(inputs, pos, i, d);
    AdvanceKeepsCovered(inputs, pos, i, given);
    AdvanceKeepsFrom(inputs, pos, held, i, d);
    AdvanceShrinks(inputs, pos, i);
  }

  /** The current entry is the least of the heads and of a new user key; without one the heap is empty. */
  ghost predicate CurrentFits(inputs: seq<Input>, pos: seq<nat>, heap: Heap, current: Option<HeapEntry>,
                              given: seq<Entry>)
    requires |pos| == |inputs|
  {
    match current
    case None => heap == map[] && Suffixes(inputs, pos, heap)
    case Some(c) =>
      var held := heap[c.index := c.iter];
      && Suffixes(inputs, pos, held) && c.index !in heap && c.iter != []
      && (forall i :: i in held ==> held[i] != [] && Before(c.iter[0].key, c.index, held[i][0].key, i))
      && ReadBelow(inputs, pos, c.iter[0].key.data, false)
      && forall a :: 0 <= a < |given| ==> Lt(given[a].key.data, c.iter[0].key.data)
  }

  /** Nothing was read yet, or exactly everything up to the user key that was given out last. */
  ghost predicate Between(inputs: seq<Input>, pos: seq<nat>, heap: Heap, given: seq<Entry>, last: Option<bytes>)
    requires |pos| == |inputs|
  {
    && Suffixes(inputs, pos, heap)
    && match last
       case None => given == [] && forall i :: 0 <= i < |inputs| ==> pos[i] == 0
       case Some(d) =>
         && ReadBelow(inputs, pos, d, true) && HeldFrom(heap, d)
         && (forall i :: i in heap ==> heap[i] != [] && heap[i][0].key.data != d)
         && forall a :: 0 <= a < |given| ==> Le(given[a].key.data, d)
  }

  lemma HeldNonEmpty(inputs: seq<Input>, pos: seq<nat>, heap: Heap)
    requires Suffixes(inputs, pos, heap)
    ensures forall i :: i in heap ==> heap[i] != []
  {
  }

  /** The top of the heap fits as the current entry. */
  lemma TopFits(inputs: seq<Input>, pos: seq<nat>, held: Heap, given: seq<Entry>, last: Option<bytes>, best: nat)
    requires |pos| == |inputs| && Between(inputs, pos, held, given, last) && best in held && held[best] != []
    requires forall i :: i in held ==> held[i] != [] && Before(held[best][0].key, best, held[i][0].key, i)
    ensures CurrentFits(inputs, pos, held - {best}, Some(HeapEntry(best, held[best])), given)
  {
    assert (held - {best})[best := held[best]] == held;
    if last.Some? {
      assert Lt(last.value, held[best][0].key.data);
      BelowLater(inputs, pos, last.value, held[best][0].key.data);
      LaterThanGiven(given, last.value, held[best][0].key.data);
    }
    hide Suffixes, Before, HeldFrom, Lt;
  }

  class MergeIterator {
    var heap: Heap
    var current: Option<HeapEntry>
    ghost const inputs: seq<Input>
    ghost var pos: seq<nat>
    /** What was given out before the current entry. */
    ghost var given: seq<Entry>

    ghost predicate Progress()
      reads this
    {
      ProgressOk(inputs, pos, given)
    }

    ghost predicate CurrentOk()
      reads this
      requires |pos| == |inputs|
    {
      CurrentFits(inputs, pos, heap, current, given)
    }

    ghost predicate Valid()
      reads this
    {
      Progress() && CurrentOk()
    }

    /** Takes the top of the heap as the current entry. */
    method PopCurrent(ghost last: Option<bytes>)
      requires Progress() && Between(inputs, pos, heap, given, last)
      modifies this`heap, this`current
      ensures Valid()
    {
      hide ProgressOk, Suffixes, Before;
      if heap == map[] {
        current := None;
        return;
      }
      HeldNonEmpty(inputs, pos, heap);
      var best := Top(heap);
      TopFits(inputs, pos, heap, given, last, best);
      hide Between, CurrentFits;
      current := Some(HeapEntry(best, heap[best]));
      heap := heap - {best};
    }

    /** The iterators that have an entry go into the heap. */
    constructor (iters: seq<Input>)
      requires forall i :: 0 <= i < |iters| ==> SortedByKey(iters[i])
      ensures Valid() && inputs == iters && given == []
    {
      hide SortedByKey, CurrentFits;
      var h: Heap := map[];
      for index := 0 to |iters|
        invariant forall i :: i in h <==> 0 <= i < index && iters[i] != []
        invariant forall i :: i in h ==> h[i] == iters[i]
      {
        if iters[index] != [] {
          h := h[index := iters[index]];
        }
      }
      heap, current := h, None;
      inputs, pos, given := iters, seq(|iters|, _ => 0), [];
      new;
      NothingRead(inputs, pos, heap);
      PopCurrent(None);
    }

    /** One heap entry moves on; it stays in the heap while it has entries. */
    method AdvanceTop(i: nat, ghost d: bytes)
      requires Progress() && Suffixes(inputs, pos, heap) && i in heap && heap[i] != [] && heap[i][0].key.data == d
      requires ReadBelow(inputs, pos, d, true) && HeldFrom(heap, d) && HasData(given, d)
      modifies this`heap, this`pos
      ensures Progress() && Suffixes(inputs, pos, heap) && ReadBelow(inputs, pos, d, true) && HeldFrom(heap, d)
      ensures Left(inputs, pos) < old(Left(inputs, pos))
    {
      hide ProgressOk, Suffixes, ReadBelow, HeldFrom, HasData, Left;
      AdvanceFacts(inputs, pos, heap, i, given, d);
      var rest := heap[i][1..];
      heap := if rest != [] then heap[i := rest] else heap - {i};
      pos := pos[i := pos[i] + 1];
    }

    /** Drops every entry of the user key `d` from the heap. */
    method DropDuplicates(d: bytes)
      requires Progress() && Suffixes(inputs, pos, heap)
      requires ReadBelow(inputs, pos, d, true) && HeldFrom(heap, d) && HasData(given, d)
      modifies this`heap, this`pos
      ensures Progress() && Suffixes(inputs, pos, heap) && ReadBelow(inputs, pos, d, true) && HeldFrom(heap, d)
      ensures forall i :: i in heap ==> heap[i] != [] && heap[i][0].key.data != d
      ensures |pos| == |inputs| && Left(inputs, pos) <= old(Left(inputs, pos))
    {
      hide Progress, ReadBelow, HeldFrom, HasData, Left;
      while heap != map[]
        invariant Progress() && Suffixes(inputs, pos, heap) && ReadBelow(inputs, pos, d, true) && HeldFrom(heap, d)
        invariant |pos| == |inputs| && Left(inputs, pos) <= old(Left(inputs, pos))
        decreases Left(inputs, pos)
      {
        var top := Top(heap);
        if heap[top][0].key.data != d {
          TopIsLater(heap, top, d);
          break;
        }
        AdvanceTop(top, d);
      }
    }

    /** Gives the current entry out and puts its iterator, moved on, back into the heap. */
    method TakeCurrent() returns (e: Entry)
      requires Valid() && current.Some?
      modifies this
      ensures Progress() && Suffixes(inputs, pos, heap)
      ensures ReadBelow(inputs, pos, e.key.data, true) && HeldFrom(heap, e.key.data) && HasData(given, e.key.data)
      ensures e == old(current).value.iter[0] && given == old(given) + [e] && current == None
      ensures forall a :: 0 <= a < |given| ==> Le(given[a].key.data, e.key.data)
      ensures |old(pos)| == |inputs| && Left(inputs, pos) < Left(inputs, old(pos))
    {
      hide ProgressOk, Suffixes, ReadBelow, HeldFrom, HasData, Left, Before, Le;
      var entry := current.value;
      e := entry.iter[0];
      TakenFacts(inputs, pos, heap, entry, given);
      hide CurrentFits;
      current := None;
      var rest := entry.iter[1..];
      if rest != [] {
        heap := heap[entry.index := rest];
      }
      pos := pos[entry.index := pos[entry.index] + 1];
      given := given + [e];
    }

    method Next() returns (e: Entry)
      requires Valid() && current.Some?
      modifies this
      ensures Valid() && e == old(current).value.iter[0] && given == old(given) + [e]
      ensures |pos| == |inputs| && |old(pos)| == |inputs| && Left(inputs, pos) < Left(inputs, old(pos))
    {
      hide Progress, CurrentOk, Suffixes, ReadBelow, HeldFrom, HasData, Left;
      e := TakeCurrent();
      DropDuplicates(e.key.data);
      assert |pos| == |inputs|;
      PopCurrent(Some(e.key.data));
    }
  }

  lemma PutBack(heap: Heap, i: nat, iter: Input)
    requires i !in heap && iter != []
    ensures Advanced(heap[i := iter], i) == if |iter| > 1 then heap[i := iter[1..]] else heap
  {
    assert heap[i := iter] - {i} == heap;
  }

  /** What giving out the current entry does to the progress facts. */
  lemma TakenFacts(inputs: seq<Input>, pos: seq<nat>, heap: Heap, c: HeapEntry, given: seq<Entry>)
    requires ProgressOk(inputs, pos, given) && CurrentFits(inputs, pos, heap, Some(c), given)
    ensures c.iter != [] && c.index < |pos|
    ensures var e := c.iter[0];
            var pos' := pos[c.index := pos[c.index] + 1];
            var heap' := if |c.iter| > 1 then heap[c.index := c.iter[1..]] else heap;
            && ProgressOk(inputs, pos', given + [e]) && Suffixes(inputs, pos', heap')
            && ReadBelow(inputs, pos', e.key.data, true) && HasData(given + [e], e.key.data)
            && HeldFrom(heap', e.key.data)
            && (forall a :: 0 <= a < |given + [e]| ==> Le((given + [e])[a].key.data, e.key.data))
            && Left(inputs, pos') < Left(inputs, pos)
  {
    hide CurrentFits, Before, Wins, Left, HasData, Le, Suffixes, ReadBelow, Covered, HeldFrom, SortedByKey;
    hide AscendingData, Advanced;
    FitsFacts(inputs, pos, heap, c, given);
    var held := heap[c.index := c.iter];
    LeastHeadWins(inputs, pos, held, c.index);
    PutBack(heap, c.index, c.iter);
    HeadTaken(inputs, pos, held, c.index, given);
    CoveredTaken(inputs, pos, held, c.index, given);
    AscendingMore(given, c.iter[0]);
    assert IsWinner(inputs, c.iter[0]);
    ProgressMore(inputs, pos, pos[c.index := pos[c.index] + 1], given, c.iter[0]);
    hide IsWinner, ProgressOk;
  }

  lemma PosFits(inputs: seq<Input>, pos: seq<nat>, held: Heap, i: nat)
    requires Suffixes(inputs, pos, held) && i in held
    ensures i < |inputs| && pos[i] < |inputs[i]|
  {
  }

  lemma ProgressMore(inputs: seq<Input>, pos: seq<nat>, pos': seq<nat>, given: seq<Entry>, e: Entry)
    requires ProgressOk(inputs, pos, given) && |pos'| == |inputs|
    requires Covered(inputs, pos', given + [e]) && AscendingData(given + [e]) && IsWinner(inputs, e)
    ensures ProgressOk(inputs, pos', given + [e])
  {
    hide SortedByKey, Covered, AscendingData, IsWinner;
  }

  lemma FitsFacts(inputs: seq<Input>, pos: seq<nat>, heap: Heap, c: HeapEntry, given: seq<Entry>)
    requires |pos| == |inputs| && CurrentFits(inputs, pos, heap, Some(c), given)
    ensures c.iter != [] && c.index < |inputs| && pos[c.index] < |inputs[c.index]| && c.index !in heap
    ensures var held := heap[c.index := c.iter];
            && Suffixes(inputs, pos, held) && ReadBelow(inputs, pos, c.iter[0].key.data, false)
            && (forall k :: k in held ==> held[k] != [] && Before(c.iter[0].key, c.index, held[k][0].key, k))
    ensures forall a :: 0 <= a < |given| ==> Lt(given[a].key.data, c.iter[0].key.data)
  {
    PosFits(inputs, pos, heap[c.index := c.iter], c.index);
    hide Before, ReadBelow;
  }

  /** Where the inputs are once the least head was read. */
  lemma HeadTaken(inputs: seq<Input>, pos: seq<nat>, held: Heap, i: nat, given: seq<Entry>)
    requires forall k :: 0 <= k < |inputs| ==> SortedByKey(inputs[k])
    requires Suffixes(inputs, pos, held) && i in held && ReadBelow(inputs, pos, held[i][0].key.data, false)
    requires forall k :: k in held ==> held[k] != [] && Before(held[i][0].key, i, held[k][0].key, k)
    ensures var pos', d := pos[i := pos[i] + 1], held[i][0].key.data;
            && Suffixes(inputs, pos', Advanced(held, i)) && ReadBelow(inputs, pos', d, true)
            && HeldFrom(Advanced(held, i), d) && Left(inputs, pos') < Left(inputs, pos)
  {
    var d := held[i][0].key.data;
    AdvanceKeepsSuffixes(inputs, pos, held, i);
    AdvanceKeepsBelow(inputs, pos, i, d);
    HeadsFrom(held, i);
    AdvanceKeepsFrom(inputs, pos, held, i, d);
    AdvanceShrinks(inputs, pos, i);
    hide Suffixes, ReadBelow, HeldFrom, SortedByKey, Left, Before, Advanced;
  }

  lemma CoveredTaken(inputs: seq<Input>, pos: seq<nat>, held: Heap, i: nat, given: seq<Entry>)
    requires Suffixes(inputs, pos, held) && i in held && Covered(inputs, pos, given)
    ensures Covered(inputs, pos[i := pos[i] + 1], given + [held[i][0]])
    ensures HasData(given + [held[i][0]], held[i][0].key.data)
  {
    var e := held[i][0];
    AdvanceKeepsSuffixes(inputs, pos, held, i);
    HasDataMore(given, e, e.key.data);
    CoveredMore(inputs, pos, given, e);
    hide HasData;
    AdvanceKeepsCovered(inputs, pos, i, given + [e]);
    hide Covered, Suffixes;
  }

  lemma AscendingMore(given: seq<Entry>, e: Entry)
    requires AscendingData(given) && forall a :: 0 <= a < |given| ==> Lt(given[a].key.data, e.key.data)
    ensures AscendingData(given + [e])
    ensures forall a :: 0 <= a < |given + [e]| ==> Le((given + [e])[a].key.data, e.key.data)
  {
  }

  lemma HeadsFrom(held: Heap, i: nat)
    requires i in held && forall k :: k in held ==> held[k] != []
    requires forall k :: k in held ==> Before(held[i][0].key, i, held[k][0].key, k)
    ensures HeldFrom(held, held[i][0].key.data)
  {
    forall k | k in held ensures Le(held[i][0].key.data, held[k][0].key.data) {
      assert KeyLe(held[i][0].key, held[k][0].key);
      KeyLeData(held[i][0].key, held[k][0].key);
    }
  }

  lemma NothingRead(inputs: seq<Input>, pos: seq<nat>, heap: Heap)
    requires |pos| == |inputs| && forall i :: 0 <= i < |inputs| ==> pos[i] == 0
    requires forall i :: i in heap <==> 0 <= i < |inputs| && inputs[i] != []
    requires forall i :: i in heap ==> heap[i] == inputs[i]
    ensures Suffixes(inputs, pos, heap) && Covered(inputs, pos, [])
  {
    assert forall i :: 0 <= i < |inputs| ==> inputs[i][0..] == inputs[i];
  }

  /** When the top of the heap is past a key, so is the whole heap. */
  lemma TopIsLater(heap: Heap, top: nat, d: bytes)
    requires HeldFrom(heap, d) && top in heap && heap[top] != [] && heap[top][0].key.data != d
    requires forall i :: i in heap ==> heap[i] != [] && Before(heap[top][0].key, top, heap[i][0].key, i)
    ensures forall i :: i in heap ==> heap[i][0].key.data != d
  {
    forall i | i in heap ensures heap[i][0].key.data != d {
      assert KeyLe(heap[top][0].key, heap[i][0].key);
      KeyLeData(heap[top][0].key, heap[i][0].key);
      NotBelow(d, heap[top][0].key.data);
    }
  }

  lemma NotBelow(d: bytes, a: bytes)
    requires Lt(d, a)
    ensures !Le(a, d)
  {
    LtIsStrictTotalOrder();
  }

  lemma LaterThanGiven(given: seq<Entry>, d: bytes, later: bytes)
    requires Lt(d, later) && forall a :: 0 <= a < |given| ==> Le(given[a].key.data, d)
    ensures forall a :: 0 <= a < |given| ==> Lt(given[a].key.data, later)
  {
    forall a | 0 <= a < |given| ensures Lt(given[a].key.data, later) {
      if given[a].key.data != d {
        LtTransitive(given[a].key.data, d, later);
      }
    }
  }

  /** Reading a merging iterator to its end gives the merge of its inputs. */
  method Merge(inputs: seq<Input>) returns (out: seq<Entry>)
    requires forall i :: 0 <= i < |inputs| ==> SortedByKey(inputs[i])
    ensures IsMerge(inputs, out)
  {
    var iter := new MergeIterator(inputs);
    hide SortedByKey, Wins, IsWinner, AscendingData, Left;
    out := [];
    while iter.current.Some?
      invariant iter.Valid() && iter.inputs == inputs && out == iter.given && fresh(iter)
      decreases Left(inputs, iter.pos)
    {
      var e := iter.Next();
      out := out + [e];
    }
    AllCovered(inputs, iter.pos, out);
  }

  lemma AllCovered(inputs: seq<Input>, pos: seq<nat>, out: seq<Entry>)
    requires Suffixes(inputs, pos, map[]) && Covered(inputs, pos, out)
    ensures forall i, p :: 0 <= i < |inputs| && 0 <= p < |inputs[i]| ==> HasData(out, inputs[i][p].key.data)
  {
    hide HasData;
  }

  /** There is only one merge. */
  lemma MergeIsUnique(inputs: seq<Input>, a: seq<Entry>, b: seq<Entry>)
    requires IsMerge(inputs, a) && IsMerge(inputs, b)
    ensures a == b
  {
    assert AscendingData(a) && AscendingData(b);
    forall e | e in a ensures e in b {
      WinnerInOther(inputs, a, b, e);
    }
    forall e | e in b ensures e in a {
      WinnerInOther(inputs, b, a, e);
    }
    hide IsMerge, AscendingData;
    AscendingIsUnique(a, b);
  }

  /** Two winners of one user key are the same entry. */
  lemma OneWinner(inputs: seq<Input>, i: nat, p: nat, j: nat, q: nat)
    requires i < |inputs| && p < |inputs[i]| && Wins(inputs, i, p)
    requires j < |inputs| && q < |inputs[j]| && Wins(inputs, j, q)
    requires inputs[i][p].key.data == inputs[j][q].key.data
    ensures i == j && p == q
  {
    KeyOrderIsTotal(inputs[i][p].key, inputs[j][q].key, inputs[i][p].key);
    hide CompareKeys;
  }

  lemma WinnerInOther(inputs: seq<Input>, a: seq<Entry>, b: seq<Entry>, e: Entry)
    requires IsMerge(inputs, a) && IsMerge(inputs, b) && e in a
    ensures e in b
  {
    hide Wins;
    var x :| 0 <= x < |a| && a[x] == e;
    assert IsWinner(inputs, a[x]);
    var i, p :| 0 <= i < |inputs| && 0 <= p < |inputs[i]| && inputs[i][p] == e && Wins(inputs, i, p);
    assert HasData(b, inputs[i][p].key.data);
    var y :| 0 <= y < |b| && b[y].key.data == e.key.data;
    assert IsWinner(inputs, b[y]);
    var j, q :| 0 <= j < |inputs| && 0 <= q < |inputs[j]| && inputs[j][q] == b[y] && Wins(inputs, j, q);
    hide IsMerge;
    OneWinner(inputs, i, p, j, q);
  }

  // ---------------------------------------------------------------- merging two

  /** `choose_a`, on two iterators that are not both at their end. */
  predicate ChooseA(a: Input, b: Input) {
    if a == [] then false else if b == [] then true else KeyLe(a[0].key, b[0].key)
  }

  /** What `TwoMergeIterator` gives, in order. */
  function TwoMerge(a: Input, b: Input): seq<Entry>
    decreases |a| + |b|
  {
    if a == [] && b == [] then []
    else if ChooseA(a, b) then
      [a[0]] + TwoMerge(a[1..], if b != [] && a[0].key.data == b[0].key.data then b[1..] else b)
    else [b[0]] + TwoMerge(a, b[1..])
  }

  class TwoMergeIterator {
    var a: Input
    var b: Input
    var useA: bool

    ghost predicate Valid()
      reads this
    {
      useA == ChooseA(a, b)
    }

    /** Everything still to come. */
    ghost function Remaining(): seq<Entry>
      reads this
    {
      TwoMerge(a, b)
    }

    constructor (a: Input, b: Input)
      ensures Valid() && Remaining() == TwoMerge(a, b)
    {
      this.a, this.b, useA := a, b, ChooseA(a, b);
    }

    predicate IsValid()
      reads this
    {
      a != [] || b != []
    }

    function Current(): Entry
      reads this
      requires Valid() && IsValid()
    {
      if useA then a[0] else b[0]
    }

    method Next()
      requires Valid() && IsValid()
      modifies this
      ensures Valid() && old(Remaining()) == [old(Current())] + Remaining()
    {
      if useA {
        if b != [] && a[0].key.data == b[0].key.data {
          b := b[1..];
        }
        a := a[1..];
      } else {
        b := b[1..];
      }
      useA := ChooseA(a, b);
    }
  }

  /** Of two inputs with the same user key, `a` has the version that is not older. */
  predicate NeverOlder(a: Input, b: Input) {
    forall i, j :: 0 <= i < |a| && 0 <= j < |b| && a[i].key.data == b[j].key.data ==>
      a[i].key.timestamp >= b[j].key.timestamp
  }

  /** Every entry of `a`, and the entries of `b` whose user key `a` lacks. */
  ghost predicate Overrides(out: seq<Entry>, a: Input, b: Input) {
    forall e :: e in out <==> e in a || (e in b && !HasData(a, e.key.data))
  }

  lemma AscendingCons(x: Entry, rest: seq<Entry>)
    ensures AscendingData([x] + rest) <==> AscendingData(rest) && forall e :: e in rest ==> Lt(x.key.data, e.key.data)
  {
    var all := [x] + rest;
    assert forall i :: 0 <= i < |rest| ==> all[i + 1] == rest[i];
    if AscendingData(all) {
      forall i, j | 0 <= i < j < |rest| ensures Lt(rest[i].key.data, rest[j].key.data) {
        assert Lt(all[i + 1].key.data, all[j + 1].key.data);
      }
      forall e | e in rest ensures Lt(x.key.data, e.key.data) {
        var i :| 0 <= i < |rest| && rest[i] == e;
        assert Lt(all[0].key.data, all[i + 1].key.data);
      }
    }
  }

  /** The tail of an ascending input: still ascending, all past the head. */
  lemma AscendingTail(s: Input)
    requires AscendingData(s) && s != []
    ensures AscendingData(s[1..]) && forall e :: e in s[1..] ==> Lt(s[0].key.data, e.key.data)
  {
    assert s == [s[0]] + s[1..];
    AscendingCons(s[0], s[1..]);
  }

  lemma HeadNotInTail(s: seq<Entry>)
    requires AscendingData(s) && s != []
    ensures s[0] !in s[1..]
  {
    AscendingTail(s);
    LtIrreflexive(s[0].key.data);
  }

  /** The members of an ascending sequence fix its first entry. */
  lemma SameHead(a: seq<Entry>, b: seq<Entry>)
    requires AscendingData(a) && AscendingData(b) && a != [] && b != []
    requires a[0] in b && b[0] in a
    ensures a[0] == b[0]
  {
    AscendingTail(a);
    AscendingTail(b);
    hide AscendingData;
    LtIsStrictTotalOrder();
    hide Lt;
  }

  lemma {:induction false} AscendingIsUnique(a: seq<Entry>, b: seq<Entry>)
    requires AscendingData(a) && AscendingData(b)
    requires forall e :: e in a <==> e in b
    ensures a == b
  {
    assert a == [] <==> b == [] by {
      assert a != [] ==> a[0] in a;
      assert b != [] ==> b[0] in b;
    }
    if a != [] {
      SameHead(a, b);
      HeadNotInTail(a);
      HeadNotInTail(b);
      AscendingTail(a);
      AscendingTail(b);
      hide AscendingData;
      forall e ensures e in a[1..] <==> e in b[1..] {
        assert e in a <==> e == a[0] || e in a[1..];
        assert e in b <==> e == b[0] || e in b[1..];
      }
      AscendingIsUnique(a[1..], b[1..]);
    }
  }

  lemma HasDataIn(s: seq<Entry>, data: bytes)
    ensures HasData(s, data) <==> exists e :: e in s && e.key.data == data
  {
    if e :| e in s && e.key.data == data {
      var i :| 0 <= i < |s| && s[i] == e;
    }
  }

  lemma NeverOlderTails(a: Input, b: Input, a': Input, b': Input)
    requires NeverOlder(a, b) && (a' == a || (a != [] && a' == a[1..])) && (b' == b || (b != [] && b' == b[1..]))
    ensures NeverOlder(a', b')
  {
  }

  /** The first entry given, when `a` comes first: nothing of `b` that is kept has its user key. */
  lemma OverrideA(a: Input, b: Input, rest: seq<Entry>)
    requires AscendingData(a) && AscendingData(b) && a != [] && ChooseA(a, b)
    requires var b' := if b != [] && a[0].key.data == b[0].key.data then b[1..] else b;
             Overrides(rest, a[1..], b')
    ensures Overrides([a[0]] + rest, a, b)
    ensures forall e :: e in rest ==> Lt(a[0].key.data, e.key.data)
  {
    var b' := if b != [] && a[0].key.data == b[0].key.data then b[1..] else b;
    AscendingTail(a);
    LtIsStrictTotalOrder();
    if b != [] {
      AscendingTail(b);
      KeyLeData(a[0].key, b[0].key);
      assert forall e :: e in b <==> e == b[0] || e in b[1..];
    }
    assert forall e :: e in a <==> e == a[0] || e in a[1..];
    forall e | e in b' ensures Lt(a[0].key.data, e.key.data) {
    }
    forall e: Entry ensures HasData(a, e.key.data) <==> e.key.data == a[0].key.data || HasData(a[1..], e.key.data) {
      HasDataIn(a, e.key.data);
      HasDataIn(a[1..], e.key.data);
    }
    hide HasData, ChooseA, AscendingData, Lt;
  }

  /** When `b` comes first its user key is not in `a`. */
  lemma OverrideB(a: Input, b: Input, rest: seq<Entry>)
    requires AscendingData(a) && AscendingData(b) && NeverOlder(a, b) && b != [] && !ChooseA(a, b)
    requires Overrides(rest, a, b[1..])
    ensures Overrides([b[0]] + rest, a, b)
    ensures forall e :: e in rest ==> Lt(b[0].key.data, e.key.data)
  {
    LtIsStrictTotalOrder();
    AscendingTail(b);
    if a != [] {
      AscendingTail(a);
      assert a[0].key.data != b[0].key.data;
      assert forall e :: e in a <==> e == a[0] || e in a[1..];
    }
    assert forall e :: e in a ==> Lt(b[0].key.data, e.key.data);
    assert forall e :: e in b <==> e == b[0] || e in b[1..];
    HasDataIn(a, b[0].key.data);
    hide HasData, ChooseA, AscendingData, Lt, CompareKeys;
  }

  /** Where `a` is never older, the merge of two is the override of `b` by `a`, in order. */
  lemma {:induction false} TwoMergeIsOverride(a: Input, b: Input)
    requires AscendingData(a) && AscendingData(b) && NeverOlder(a, b)
    ensures AscendingData(TwoMerge(a, b)) && Overrides(TwoMerge(a, b), a, b)
    decreases |a| + |b|
  {
    if a == [] && b == [] {
    } else if ChooseA(a, b) {
      var b' := if b != [] && a[0].key.data == b[0].key.data then b[1..] else b;
      AscendingTail(a);
      if b != [] {
        AscendingTail(b);
      }
      NeverOlderTails(a, b, a[1..], b');
      TwoMergeIsOverride(a[1..], b');
      OverrideA(a, b, TwoMerge(a[1..], b'));
      AscendingCons(a[0], TwoMerge(a[1..], b'));
      hide ChooseA, AscendingData, Overrides;
    } else {
      AscendingTail(b);
      NeverOlderTails(a, b, a, b[1..]);
      TwoMergeIsOverride(a, b[1..]);
      OverrideB(a, b, TwoMerge(a, b[1..]));
      AscendingCons(b[0], TwoMerge(a, b[1..]));
      hide ChooseA, AscendingData, Overrides;
    }
  }

  /** `a` is never dropped. */
  lemma {:induction false} AIsKept(a: Input, b: Input)
    ensures forall e :: e in a ==> e in TwoMerge(a, b)
    decreases |a| + |b|
  {
    if a == [] {
    } else if ChooseA(a, b) {
      var b' := if b != [] && a[0].key.data == b[0].key.data then b[1..] else b;
      AIsKept(a[1..], b');
      assert forall e :: e in a ==> e == a[0] || e in a[1..];
    } else {
      AIsKept(a, b[1..]);
    }
    hide ChooseA;
  }

  /** A pair of versions of one user key of which `a` has the older. */
  predicate OlderAt(a: Input, b: Input, i: nat, j: nat) {
    && i < |a| && j < |b| && a[i].key.data == b[j].key.data
    && a[i].key.timestamp < b[j].key.timestamp
  }

  lemma OlderPairMovesOnA(a: Input, b: Input, i: nat, j: nat)
    requires AscendingData(a) && AscendingData(b) && OlderAt(a, b, i, j) && ChooseA(a, b)
    ensures i > 0
    ensures if a[0].key.data == b[0].key.data then j > 0 && OlderAt(a[1..], b[1..], i - 1, j - 1)
            else OlderAt(a[1..], b, i - 1, j)
  {
    LtIsStrictTotalOrder();
    KeyOrderIsTotal(a[0].key, b[0].key, a[0].key);
    KeyLeData(a[0].key, b[0].key);
    assert i > 0 ==> Lt(a[0].key.data, a[i].key.data);
    assert j > 0 ==> Lt(b[0].key.data, b[j].key.data);
    hide Lt, CompareKeys;
  }

  lemma OlderPairMovesOnB(a: Input, b: Input, i: nat, j: nat)
    requires AscendingData(a) && AscendingData(b) && OlderAt(a, b, i, j) && !ChooseA(a, b)
    ensures j > 0 ==> OlderAt(a, b[1..], i, j - 1)
    ensures j == 0 ==> a[i] in TwoMerge(a, b[1..]) && !Lt(b[0].key.data, a[i].key.data)
  {
    AIsKept(a, b[1..]);
    LtIrreflexive(b[0].key.data);
    hide TwoMerge, AscendingData;
  }

  /** Where `a` has an older version of a shared key, that key is given out twice. */
  lemma {:induction false} OlderPairRepeats(a: Input, b: Input, i: nat, j: nat)
    requires AscendingData(a) && AscendingData(b) && OlderAt(a, b, i, j)
    ensures !AscendingData(TwoMerge(a, b))
    decreases |a| + |b|
  {
    if ChooseA(a, b) {
      OlderPairMovesOnA(a, b, i, j);
      AscendingTail(a);
      AscendingTail(b);
      var same := a[0].key.data == b[0].key.data;
      var b' := if same then b[1..] else b;
      OlderPairRepeats(a[1..], b', i - 1, if same then j - 1 else j);
      AscendingCons(a[0], TwoMerge(a[1..], b'));
      hide ChooseA, AscendingData, OlderAt;
    } else {
      OlderPairMovesOnB(a, b, i, j);
      AscendingTail(b);
      AscendingCons(b[0], TwoMerge(a, b[1..]));
      if j > 0 {
        OlderPairRepeats(a, b[1..], i, j - 1);
      }
      hide ChooseA, AscendingData, OlderAt;
    }
  }

  /** The merge of two gives each user key once exactly when `a` is never older on a shared one. */
  lemma TwoMergeUniqueIff(a: Input, b: Input)
    requires AscendingData(a) && AscendingData(b)
    ensures AscendingData(TwoMerge(a, b)) <==> NeverOlder(a, b)
  {
    if NeverOlder(a, b) {
      TwoMergeIsOverride(a, b);
    } else {
      var i, j :| 0 <= i < |a| && 0 <= j < |b| && a[i].key.data == b[j].key.data
          && a[i].key.timestamp < b[j].key.timestamp;
      OlderPairRepeats(a, b, i, j);
    }
    hide AscendingData;
  }

  /** Two inputs of one entry each, the first of them older: the user key comes twice, newest first. */
  lemma TwoMergeRepeats(k: bytes, v: Option<bytes>, w: Option<bytes>)
    ensures var a, b := [Entry(Key(k, 1), v)], [Entry(Key(k, 2), w)];
            && AscendingData(a) && AscendingData(b)
            && TwoMerge(a, b) == [b[0], a[0]] && !AscendingData(TwoMerge(a, b))
  {
    var a, b := [Entry(Key(k, 1), v)], [Entry(Key(k, 2), w)];
    LtIrreflexive(k);
    assert CompareKeys(a[0].key, b[0].key) == Greater;
    assert TwoMerge(a, b[1..]) == [a[0]] + TwoMerge(a[1..], b[1..]);
    assert OlderAt(a, b, 0, 0);
    OlderPairRepeats(a, b, 0, 0);
  }

  // ---------------------------------------------------------------- an end bound

  /** What `BoundedIterator` gives: the inner entries up to the first past the bound. */
  function Bounded(inner: Input, end: Bound): seq<Entry> {
    if inner == [] || !BeforeEnd(inner[0].key.data, end) then []
    else [inner[0]] + Bounded(inner[1..], end)
  }

  /** The entries within the bound. */
  function Within(inner: Input, end: Bound): seq<Entry> {
    if inner == [] then []
    else (if BeforeEnd(inner[0].key.data, end) then [inner[0]] else []) + Within(inner[1..], end)
  }

  class BoundedIterator {
    var inner: Input
    const endBound: Bound
    var valid: bool

    ghost predicate Valid()
      reads this
    {
      valid <==> inner != [] && BeforeEnd(inner[0].key.data, endBound)
    }

    ghost function Remaining(): seq<Entry>
      reads this
    {
      Bounded(inner, endBound)
    }

    constructor (inner: Input, endBound: Bound)
      ensures Valid() && Remaining() == Bounded(inner, endBound) && this.endBound == endBound
    {
      this.inner, this.endBound, valid := inner, endBound, true;
      new;
      CheckBound();
    }

    method CheckBound()
      modifies this`valid
      ensures Valid()
    {
      if inner == [] {
        valid := false;
        return;
      }
      var key := inner[0].key.data;
      match endBound {
        case Unbounded => valid := true;
        case Included(end) => valid := Le(key, end);
        case Excluded(end) => valid := Lt(key, end);
      }
    }

    predicate IsValid()
      reads this
    {
      valid && inner != []
    }

    method Next()
      requires Valid() && IsValid()
      modifies this
      ensures Valid() && old(Remaining()) == [old(inner)[0]] + Remaining() && inner == old(inner)[1..]
    {
      inner := inner[1..];
      CheckBound();
    }
  }

  predicate NonDescendingData(s: Input) {
    forall i, j :: 0 <= i < j < |s| ==> Le(s[i].key.data, s[j].key.data)
  }

  lemma {:induction false} PastTheBound(inner: Input, end: Bound)
    requires forall i :: 0 <= i < |inner| ==> !BeforeEnd(inner[i].key.data, end)
    ensures Within(inner, end) == []
  {
    if inner != [] {
      PastTheBound(inner[1..], end);
    }
  }

  /** Over keys in order, stopping at the bound keeps exactly what is within it. */
  lemma {:induction false} BoundedIsFilter(inner: Input, end: Bound)
    requires NonDescendingData(inner)
    ensures Bounded(inner, end) == Within(inner, end)
  {
    LtIsStrictTotalOrder();
    if inner == [] {
    } else if BeforeEnd(inner[0].key.data, end) {
      BoundedIsFilter(inner[1..], end);
    } else {
      forall i | 0 <= i < |inner| ensures !BeforeEnd(inner[i].key.data, end) {
        assert i > 0 ==> Le(inner[0].key.data, inner[i].key.data);
      }
      PastTheBound(inner, end);
    }
  }

  lemma {:induction false} WithinHolds(inner: Input, end: Bound)
    ensures forall e :: e in Within(inner, end) <==> e in inner && BeforeEnd(e.key.data, end)
  {
    if inner != [] {
      WithinHolds(inner[1..], end);
      assert forall e :: e in inner <==> e == inner[0] || e in inner[1..];
    }
  }

  /** A bounded merge of two is the range part of the override. */
  lemma BoundedMergeIsRange(a: Input, b: Input, end: Bound)
    requires AscendingData(a) && AscendingData(b) && NeverOlder(a, b)
    ensures forall e :: e in Bounded(TwoMerge(a, b), end) <==>
              (e in a || (e in b && !HasData(a, e.key.data))) && BeforeEnd(e.key.data, end)
  {
    TwoMergeIsOverride(a, b);
    BoundedIsFilter(TwoMerge(a, b), end);
    WithinHolds(TwoMerge(a, b), end);
    hide HasData, Bounded, Within, TwoMerge, BeforeEnd;
  }
}
