/**
 Range locks (crabstash-lock/src/range_lock.rs): an interval tree kept as an index-linked arena,
 each node carrying an upper bound of the range ends below it.
 */
module RangeLock {
  import opened Bytes
  import opened LockModes
  import opened Graph

  datatype RangeLockEntry = RangeLockEntry(txnId: TxnId, mode: LockMode, start: Bound, end: Bound) {
    predicate ContainsKey(key: bytes) {
      InRange(key, start, end)
    }

    predicate Overlaps(otherStart: Bound, otherEnd: Bound) {
      !IsBefore(otherStart) && !IsAfter(otherEnd)
    }

    predicate IsBefore(otherStart: Bound) {
      match (end, otherStart)
      case (Unbounded, _) => false
      case (_, Unbounded) => false
      case (Included(e), Included(s)) => Lt(e, s)
      case (Included(e), Excluded(s)) => Le(e, s)
      case (Excluded(e), Included(s)) => Le(e, s)
      case (Excluded(e), Excluded(s)) => Le(e, s)
    }

    predicate IsAfter(otherEnd: Bound) {
      match (start, otherEnd)
      case (Unbounded, _) => false
      case (_, Unbounded) => false
      case (Included(s), Included(e)) => Lt(e, s)
      case (Included(s), Excluded(e)) => Le(e, s)
      case (Excluded(s), Included(e)) => Le(e, s)
      case (Excluded(s), Excluded(e)) => Le(e, s)
    }
  }

  /** Two ranges with a common key overlap; a single key overlaps exactly the ranges that contain it. */
  lemma CommonKeyMeansOverlap(e: RangeLockEntry, start: Bound, end: Bound, key: bytes)
    requires e.ContainsKey(key) && InRange(key, start, end)
    ensures e.Overlaps(start, end)
  {
    LtIsStrictTotalOrder();
  }

  lemma PointOverlapIsContainment(e: RangeLockEntry, key: bytes)
    ensures e.Overlaps(Included(key), Included(key)) <==> e.ContainsKey(key)
  {
    LtIsStrictTotalOrder();
  }

  // ---------------------------------------------------------------- order of range starts

  function CompareStarts(a: Bound, b: Bound): Ordering {
    match (a, b)
    case (Unbounded, Unbounded) => Equal
    case (Unbounded, _) => Less
    case (_, Unbounded) => Greater
    case (Included(x), Included(y)) => Compare(x, y)
    case (Included(x), Excluded(y)) => if Le(x, y) then Less else Greater
    case (Excluded(x), Included(y)) => if Lt(x, y) then Less else Greater
    case (Excluded(x), Excluded(y)) => Compare(x, y)
  }

  predicate StartsBefore(a: RangeLockEntry, b: RangeLockEntry) {
    CompareStarts(a.start, b.start) == Less
  }

  /** `CompareStarts` is a total order on bounds. */
  lemma CompareStartsIsTotalOrder(a: Bound, b: Bound, c: Bound)
    ensures CompareStarts(a, b) == Equal <==> a == b
    ensures CompareStarts(b, a) == CompareStarts(a, b).Reverse()
    ensures CompareStarts(a, b) != Greater && CompareStarts(b, c) != Greater ==> CompareStarts(a, c) != Greater
    ensures CompareStarts(a, b) != Greater && CompareStarts(b, c) == Less ==> CompareStarts(a, c) == Less
    ensures CompareStarts(a, b) == Less && CompareStarts(b, c) != Greater ==> CompareStarts(a, c) == Less
  {
    LtIsStrictTotalOrder();
  }

  // ---------------------------------------------------------------- pruning

  const SENTINEL_LENGTH: nat := 256

  /** Stands for an unbounded end in `maxEnd`. */
  function Sentinel(): bytes {
    seq(SENTINEL_LENGTH, _ => 0xFF)
  }

  function BoundToBytes(bound: Bound): bytes {
    match bound
    case Included(b) => b
    case Excluded(b) => b
    case Unbounded => Sentinel()
  }

  predicate BoundLessThan(maxEnd: bytes, start: Bound) {
    match start
    case Unbounded => false
    case Included(s) => Lt(maxEnd, s)
    case Excluded(s) => Le(maxEnd, s)
  }

  predicate BoundGreaterThan(nodeStart: Bound, end: Bound) {
    match (nodeStart, end)
    case (Unbounded, _) => false
    case (_, Unbounded) => false
    case (Included(s), Included(e)) => Lt(e, s)
    case (Included(s), Excluded(e)) => Le(e, s)
    case (Excluded(s), Included(e)) => Lt(e, s)
    case (Excluded(s), Excluded(e)) => Le(e, s)
  }

  /** The query start does not lie beyond the bytes that stand for "unbounded". */
  predicate WithinSentinel(start: Bound) {
    !BoundLessThan(Sentinel(), start)
  }

  lemma {:induction false} PastAllOnes(n: nat, key: bytes)
    ensures Lt(seq(n, _ => 0xFF), key) <==> |key| > n && forall i :: 0 <= i < n ==> key[i] == 0xFF
  {
    var ones: bytes := seq(n, _ => 0xFF);
    if n > 0 && key != [] {
      PastAllOnes(n - 1, key[1..]);
      assert ones[1..] == seq(n - 1, _ => 0xFF);
      assert forall i :: 1 <= i < |key| ==> key[i] == key[1..][i - 1];
    }
  }

  /** The keys past the sentinel are those that begin with 256 bytes of 0xFF and go on. */
  lemma PastSentinelExactly(key: bytes)
    ensures !WithinSentinel(Included(key)) <==> |key| > 256 && forall i :: 0 <= i < 256 ==> key[i] == 0xFF
    ensures !WithinSentinel(Excluded(key)) <==> |key| >= 256 && forall i :: 0 <= i < 256 ==> key[i] == 0xFF
  {
    PastAllOnes(256, key);
    assert key == Sentinel() <==> |key| == 256 && forall i :: 0 <= i < 256 ==> key[i] == 0xFF;
  }

  /** A subtree whose `maxEnd` is below the query start holds no overlapping entry. */
  lemma MaxEndPrunes(e: RangeLockEntry, maxEnd: bytes, start: Bound, end: Bound)
    requires Le(BoundToBytes(e.end), maxEnd) && BoundLessThan(maxEnd, start)
    requires WithinSentinel(start) || e.end != Unbounded
    ensures !e.Overlaps(start, end)
  {
    LtIsStrictTotalOrder();
  }

  /** Entries that start no earlier than one past the query end do not overlap. */
  lemma StartPrunes(node: RangeLockEntry, e: RangeLockEntry, start: Bound, end: Bound)
    requires BoundGreaterThan(node.start, end) && !StartsBefore(e, node)
    ensures !e.Overlaps(start, end)
  {
    LtIsStrictTotalOrder();
  }

  // ---------------------------------------------------------------- linear specification

  /** The entries a scan of `es` keeps for a query. */
  function Overlapping(es: seq<RangeLockEntry>, start: Bound, end: Bound): seq<RangeLockEntry> {
    if es == [] then []
    else (if es[0].Overlaps(start, end) then [es[0]] else []) + Overlapping(es[1..], start, end)
  }

  function ContainingKey(es: seq<RangeLockEntry>, key: bytes): seq<RangeLockEntry> {
    if es == [] then []
    else (if es[0].ContainsKey(key) then [es[0]] else []) + ContainingKey(es[1..], key)
  }

  function WithoutTxn(es: seq<RangeLockEntry>, txnId: TxnId): seq<RangeLockEntry> {
    if es == [] then []
    else (if es[0].txnId != txnId then [es[0]] else []) + WithoutTxn(es[1..], txnId)
  }

  /** Sorted insertion, after the entries with an equal start. */
  function InsertEntry(es: seq<RangeLockEntry>, e: RangeLockEntry): seq<RangeLockEntry> {
    if es == [] then [e]
    else if StartsBefore(e, es[0]) then [e] + es
    else [es[0]] + InsertEntry(es[1..], e)
  }

  ghost predicate SortedByStart(es: seq<RangeLockEntry>) {
    forall i, j | 0 <= i < j < |es| :: !StartsBefore(es[j], es[i])
  }

  lemma {:induction false} OverlappingConcat(a: seq<RangeLockEntry>, b: seq<RangeLockEntry>, start: Bound, end: Bound)
    ensures Overlapping(a + b, start, end) == Overlapping(a, start, end) + Overlapping(b, start, end)
  {
    if a == [] {
      assert a + b == b;
    } else {
      OverlappingConcat(a[1..], b, start, end);
      assert (a + b)[0] == a[0] && (a + b)[1..] == a[1..] + b;
      OverlappingStep(a, start, end);
      OverlappingStep(a + b, start, end);
      hide Overlapping, RangeLockEntry.Overlaps;
      AppendAssociates(OverlappingHead(a[0], start, end), Overlapping(a[1..], start, end), Overlapping(b, start, end));
    }
  }

  function OverlappingHead(e: RangeLockEntry, start: Bound, end: Bound): seq<RangeLockEntry> {
    if e.Overlaps(start, end) then [e] else []
  }

  lemma OverlappingStep(es: seq<RangeLockEntry>, start: Bound, end: Bound)
    requires es != []
    ensures Overlapping(es, start, end) == OverlappingHead(es[0], start, end) + Overlapping(es[1..], start, end)
  {
  }

  lemma AppendAssociates<T>(a: seq<T>, b: seq<T>, c: seq<T>)
    ensures a + (b + c) == a + b + c
  {
  }

  lemma {:induction false} NoneOverlapping(es: seq<RangeLockEntry>, start: Bound, end: Bound)
    requires forall e | e in es :: !e.Overlaps(start, end)
    ensures Overlapping(es, start, end) == []
  {
    if es != [] {
      NoneOverlapping(es[1..], start, end);
    }
  }

  lemma {:induction false} OverlappingMembers(es: seq<RangeLockEntry>, start: Bound, end: Bound, e: RangeLockEntry)
    ensures e in Overlapping(es, start, end) <==> e in es && e.Overlaps(start, end)
  {
    if es != [] {
      OverlappingMembers(es[1..], start, end, e);
    }
  }

  lemma {:induction false} PointOverlapping(es: seq<RangeLockEntry>, key: bytes)
    ensures Overlapping(es, Included(key), Included(key)) == ContainingKey(es, key)
  {
    if es != [] {
      PointOverlapIsContainment(es[0], key);
      PointOverlapping(es[1..], key);
    }
  }

  /** Insertion left of an entry that starts later. */
  lemma {:induction false} InsertLeft(a: seq<RangeLockEntry>, x: RangeLockEntry, b: seq<RangeLockEntry>,
                                      e: RangeLockEntry)
    requires StartsBefore(e, x)
    ensures InsertEntry(a + [x] + b, e) == InsertEntry(a, e) + [x] + b
  {
    if a == [] {
      assert a + [x] + b == [x] + b;
    } else {
      assert (a + [x] + b)[1..] == a[1..] + [x] + b;
      InsertLeft(a[1..], x, b, e);
    }
  }

  /** Insertion right of entries that do not start later. */
  lemma {:induction false} InsertRight(a: seq<RangeLockEntry>, b: seq<RangeLockEntry>, e: RangeLockEntry)
    requires forall x | x in a :: !StartsBefore(e, x)
    ensures InsertEntry(a + b, e) == a + InsertEntry(b, e)
  {
    if a == [] {
      assert a + b == b;
    } else {
      assert (a + b)[1..] == a[1..] + b;
      InsertRight(a[1..], b, e);
    }
  }

  lemma {:induction false} InsertAddsOne(es: seq<RangeLockEntry>, e: RangeLockEntry)
    ensures multiset(InsertEntry(es, e)) == multiset(es) + multiset{e}
  {
    if es != [] {
      assert es == [es[0]] + es[1..];
      InsertAddsOne(es[1..], e);
    }
  }

  lemma {:induction false} WithoutTxnCounts(es: seq<RangeLockEntry>, txnId: TxnId, e: RangeLockEntry)
    ensures multiset(WithoutTxn(es, txnId))[e] == if e.txnId == txnId then 0 else multiset(es)[e]
  {
    if es != [] {
      assert es == [es[0]] + es[1..];
      WithoutTxnCounts(es[1..], txnId, e);
    }
  }

  lemma WithoutTxnOfSameEntries(a: seq<RangeLockEntry>, b: seq<RangeLockEntry>, txnId: TxnId)
    requires multiset(a) == multiset(b)
    ensures multiset(WithoutTxn(a, txnId)) == multiset(WithoutTxn(b, txnId))
  {
    forall e ensures multiset(WithoutTxn(a, txnId))[e] == multiset(WithoutTxn(b, txnId))[e] {
      WithoutTxnCounts(a, txnId, e);
      WithoutTxnCounts(b, txnId, e);
    }
  }

  // ---------------------------------------------------------------- the arena as a tree

  datatype IntervalNode = IntervalNode(entry: RangeLockEntry, maxEnd: bytes, left: Option<nat>, right: Option<nat>)

  /** The tree that the links of an arena spell out. */
  datatype Shape = Leaf | Fork(left: Shape, idx: nat, right: Shape)

  function Indices(t: Shape): set<nat> {
    match t
    case Leaf => {}
    case Fork(l, i, r) => Indices(l) + {i} + Indices(r)
  }

  predicate InArena(a: seq<IntervalNode>, t: Shape) {
    match t
    case Leaf => true
    case Fork(l, i, r) => InArena(a, l) && i < |a| && InArena(a, r)
  }

  lemma {:induction false} InArenaIndices(a: seq<IntervalNode>, t: Shape)
    requires InArena(a, t)
    ensures forall k | k in Indices(t) :: k < |a|
  {
    match t
    case Leaf =>
    case Fork(l, i, r) =>
      InArenaIndices(a, l);
      InArenaIndices(a, r);
  }

  /** In-order sequence of the entries of a tree. */
  function Entries(a: seq<IntervalNode>, t: Shape): seq<RangeLockEntry>
    requires InArena(a, t)
    decreases t
  {
    match t
    case Leaf => []
    case Fork(l, i, r) => Entries(a, l) + [a[i].entry] + Entries(a, r)
  }

  /** The indices below a node are apart, larger than its own, and on the side their start belongs to. */
  ghost predicate NodePlaced(a: seq<IntervalNode>, l: Shape, i: nat, r: Shape)
    requires i < |a|
  {
    && i !in Indices(l) && i !in Indices(r) && Indices(l) !! Indices(r)
    && (forall k | k in Indices(l) :: k < |a|)
    && (forall k | k in Indices(r) :: k < |a|)
    && (forall k | k in Indices(l) :: i < k && StartsBefore(a[k].entry, a[i].entry))
    && (forall k | k in Indices(r) :: i < k && !StartsBefore(a[k].entry, a[i].entry))
  }

  /** `maxEnd` bounds every end at and below the node. */
  ghost predicate NodeBounded(a: seq<IntervalNode>, l: Shape, i: nat, r: Shape)
    requires i < |a|
    requires (forall k | k in Indices(l) :: k < |a|) && (forall k | k in Indices(r) :: k < |a|)
  {
    && Le(BoundToBytes(a[i].entry.end), a[i].maxEnd)
    && (forall k | k in Indices(l) :: Le(BoundToBytes(a[k].entry.end), a[i].maxEnd))
    && (forall k | k in Indices(r) :: Le(BoundToBytes(a[k].entry.end), a[i].maxEnd))
  }

  ghost predicate NodeOk(a: seq<IntervalNode>, l: Shape, i: nat, r: Shape)
    requires i < |a|
  {
    NodePlaced(a, l, i, r) && NodeBounded(a, l, i, r)
  }

  /** `t` is the search tree that starts at `link`. */
  ghost predicate Tree(a: seq<IntervalNode>, link: Option<nat>, t: Shape)
    ensures Tree(a, link, t) ==> InArena(a, t)
    decreases t
  {
    match t
    case Leaf => link == None
    case Fork(l, i, r) =>
      && link == Some(i) && i < |a|
      && Tree(a, a[i].left, l) && Tree(a, a[i].right, r)
      && NodeOk(a, l, i, r)
  }

  /** A tree reads only its own nodes. */
  lemma {:induction false} TreeFrame(a: seq<IntervalNode>, b: seq<IntervalNode>, link: Option<nat>, t: Shape)
    requires Tree(a, link, t) && |a| <= |b|
    requires forall k | k in Indices(t) :: k < |a| && b[k] == a[k]
    ensures Tree(b, link, t) && Entries(b, t) == Entries(a, t)
    decreases t
  {
    match t
    case Leaf =>
    case Fork(l, i, r) =>
      assert b[i] == a[i];
      TreeFrame(a, b, a[i].left, l);
      TreeFrame(a, b, a[i].right, r);
  }

  lemma {:induction false} EntriesMembers(a: seq<IntervalNode>, t: Shape, e: RangeLockEntry)
    requires InArena(a, t)
    ensures e in Entries(a, t) <==> exists k :: k in Indices(t) && k < |a| && a[k].entry == e
    decreases t
  {
    match t
    case Leaf =>
    case Fork(l, i, r) =>
      InArenaIndices(a, t);
      EntriesMembers(a, l, e);
      EntriesMembers(a, r, e);
  }

  // ---------------------------------------------------------------- insertion

  function MaxBytes(a: bytes, b: bytes): bytes {
    if Lt(a, b) then b else a
  }

  function WithMaxEnd(a: seq<IntervalNode>, i: nat, end: bytes): seq<IntervalNode>
    requires i < |a|
  {
    a[i := a[i].(maxEnd := MaxBytes(a[i].maxEnd, end))]
  }

  /** The walk of `Insert` from the root of `t`, as one function; node `n` is the one to hang in. */
  function Hang(a: seq<IntervalNode>, t: Shape, n: nat): (b: seq<IntervalNode>)
    requires InArena(a, t) && n < |a| && t != Leaf
    ensures |b| == |a|
    decreases t
  {
    var a1 := WithMaxEnd(a, t.idx, BoundToBytes(a[n].entry.end));
    InArenaSameLength(a, a1, t.left);
    InArenaSameLength(a, a1, t.right);
    if StartsBefore(a[n].entry, a[t.idx].entry) then
      if t.left == Leaf then a1[t.idx := a1[t.idx].(left := Some(n))] else Hang(a1, t.left, n)
    else
      if t.right == Leaf then a1[t.idx := a1[t.idx].(right := Some(n))] else Hang(a1, t.right, n)
  }

  /** The tree after the walk. */
  function Grown(a: seq<IntervalNode>, t: Shape, n: nat): Shape
    requires InArena(a, t) && n < |a|
    decreases t
  {
    match t
    case Leaf => Fork(Leaf, n, Leaf)
    case Fork(l, i, r) =>
      if StartsBefore(a[n].entry, a[i].entry) then Fork(Grown(a, l, n), i, r) else Fork(l, i, Grown(a, r, n))
  }

  lemma {:induction false} InArenaSameLength(a: seq<IntervalNode>, b: seq<IntervalNode>, t: Shape)
    requires InArena(a, t) && |a| == |b|
    ensures InArena(b, t)
  {
    match t
    case Leaf =>
    case Fork(l, i, r) =>
      InArenaSameLength(a, b, l);
      InArenaSameLength(a, b, r);
  }

  ghost predicate SameEntries(a: seq<IntervalNode>, b: seq<IntervalNode>) {
    |a| == |b| && forall k | 0 <= k < |a| :: b[k].entry == a[k].entry
  }

  /** The walk touches nodes of the tree only, and only their links and bounds. */
  lemma {:induction false} HangFrame(a: seq<IntervalNode>, t: Shape, n: nat)
    requires InArena(a, t) && n < |a| && t != Leaf
    ensures SameEntries(a, Hang(a, t, n))
    ensures forall k | 0 <= k < |a| && k !in Indices(t) :: Hang(a, t, n)[k] == a[k]
    decreases t
  {
    var a1 := WithMaxEnd(a, t.idx, BoundToBytes(a[n].entry.end));
    InArenaSameLength(a, a1, t.left);
    InArenaSameLength(a, a1, t.right);
    if StartsBefore(a[n].entry, a[t.idx].entry) {
      if t.left != Leaf { HangFrame(a1, t.left, n); }
    } else {
      if t.right != Leaf { HangFrame(a1, t.right, n); }
    }
  }

  lemma {:induction false} GrownDependsOnEntries(a: seq<IntervalNode>, b: seq<IntervalNode>, t: Shape, n: nat)
    requires InArena(a, t) && InArena(b, t) && n < |a| && SameEntries(a, b)
    ensures Grown(a, t, n) == Grown(b, t, n)
    decreases t
  {
    match t
    case Leaf =>
    case Fork(l, i, r) =>
      GrownDependsOnEntries(a, b, l, n);
      GrownDependsOnEntries(a, b, r, n);
  }

  lemma {:induction false} GrownIndices(a: seq<IntervalNode>, t: Shape, n: nat)
    requires InArena(a, t) && n < |a|
    ensures Indices(Grown(a, t, n)) == Indices(t) + {n}
    ensures InArena(a, Grown(a, t, n))
    decreases t
  {
    match t
    case Leaf =>
    case Fork(l, i, r) =>
      GrownIndices(a, l, n);
      GrownIndices(a, r, n);
  }

  lemma {:induction false} EntriesSame(a: seq<IntervalNode>, b: seq<IntervalNode>, t: Shape)
    requires InArena(a, t) && InArena(b, t) && SameEntries(a, b)
    ensures Entries(a, t) == Entries(b, t)
    decreases t
  {
    match t
    case Leaf =>
    case Fork(l, i, r) =>
      EntriesSame(a, b, l);
      EntriesSame(a, b, r);
  }

  /** In order, the grown tree holds the new entry at its sorted place. */
  lemma {:induction false} GrownEntries(a: seq<IntervalNode>, link: Option<nat>, t: Shape, n: nat)
    requires Tree(a, link, t) && n < |a|
    ensures InArena(a, Grown(a, t, n))
    ensures Entries(a, Grown(a, t, n)) == InsertEntry(Entries(a, t), a[n].entry)
    decreases t
  {
    GrownIndices(a, t, n);
    match t
    case Leaf =>
    case Fork(l, i, r) =>
      var e, x := a[n].entry, a[i].entry;
      GrownEntries(a, a[i].left, l, n);
      GrownEntries(a, a[i].right, r, n);
      if StartsBefore(e, x) {
        InsertLeft(Entries(a, l), x, Entries(a, r), e);
      } else {
        var before := Entries(a, l) + [x];
        forall y | y in before ensures !StartsBefore(e, y) {
          NotAfterLeft(a, l, i, r, e, y);
        }
        InsertRight(before, Entries(a, r), e);
      }
  }

  lemma NotAfterLeft(a: seq<IntervalNode>, l: Shape, i: nat, r: Shape, e: RangeLockEntry, y: RangeLockEntry)
    requires i < |a| && InArena(a, l) && NodeOk(a, l, i, r)
    requires !StartsBefore(e, a[i].entry) && y in Entries(a, l) + [a[i].entry]
    ensures !StartsBefore(e, y)
  {
    if y in Entries(a, l) {
      EntriesMembers(a, l, y);
      var k :| k in Indices(l) && k < |a| && a[k].entry == y;
      CompareStartsIsTotalOrder(e.start, y.start, a[i].entry.start);
    }
  }

  /** Node `n` is a fresh leaf of the arena. */
  ghost predicate IsFreshNode(a: seq<IntervalNode>, t: Shape, n: nat) {
    && n < |a| && n !in Indices(t)
    && a[n].left == None && a[n].right == None
    && a[n].maxEnd == BoundToBytes(a[n].entry.end)
    && (forall k | k in Indices(t) :: k < n)
  }

  lemma MaxBytesBounds(x: bytes, a: bytes, b: bytes)
    ensures Le(x, a) ==> Le(x, MaxBytes(a, b))
    ensures Le(b, MaxBytes(a, b))
  {
    LtIsStrictTotalOrder();
  }

  /** A node stays in order when its left or its right tree gains node `n` and its bound is raised. */
  lemma NodePlacedGrows(a: seq<IntervalNode>, b: seq<IntervalNode>, l: Shape, l2: Shape, i: nat, r: Shape, r2: Shape,
                        n: nat)
    requires i < |a| && NodePlaced(a, l, i, r) && SameEntries(a, b) && i < n < |a|
    requires n !in Indices(l) && n !in Indices(r)
    requires if StartsBefore(a[n].entry, a[i].entry)
             then Indices(l2) == Indices(l) + {n} && r2 == r
             else l2 == l && Indices(r2) == Indices(r) + {n}
    ensures NodePlaced(b, l2, i, r2)
  {
    hide StartsBefore;
  }

  lemma NodeOkGrows(a: seq<IntervalNode>, b: seq<IntervalNode>, l: Shape, l2: Shape, i: nat, r: Shape, r2: Shape,
                    n: nat)
    requires i < |a| && NodeOk(a, l, i, r) && SameEntries(a, b) && i < n < |a|
    requires n !in Indices(l) && n !in Indices(r)
    requires if StartsBefore(a[n].entry, a[i].entry)
             then Indices(l2) == Indices(l) + {n} && r2 == r
             else l2 == l && Indices(r2) == Indices(r) + {n}
    requires b[i].maxEnd == MaxBytes(a[i].maxEnd, BoundToBytes(a[n].entry.end))
    ensures NodeOk(b, l2, i, r2)
  {
    hide NodePlaced, NodeBounded, StartsBefore, MaxBytes;
    NodePlacedGrows(a, b, l, l2, i, r, r2, n);
    BelowArena(a, l, i, r);
    BelowArena(b, l2, i, r2);
    NodeBoundedGrows(a, b, l, l2, i, r, r2, n);
  }

  lemma BelowArena(a: seq<IntervalNode>, l: Shape, i: nat, r: Shape)
    requires i < |a| && NodePlaced(a, l, i, r)
    ensures (forall k | k in Indices(l) :: k < |a|) && (forall k | k in Indices(r) :: k < |a|)
  {
  }

  lemma NodeBoundedGrows(a: seq<IntervalNode>, b: seq<IntervalNode>, l: Shape, l2: Shape, i: nat, r: Shape, r2: Shape,
                         n: nat)
    requires i < |a| && SameEntries(a, b) && n < |a|
    requires (forall k | k in Indices(l) :: k < |a|) && (forall k | k in Indices(r) :: k < |a|)
    requires NodeBounded(a, l, i, r)
    requires (forall k | k in Indices(l2) :: k < |b|) && (forall k | k in Indices(r2) :: k < |b|)
    requires Indices(l2) <= Indices(l) + {n} && Indices(r2) <= Indices(r) + {n}
    requires b[i].maxEnd == MaxBytes(a[i].maxEnd, BoundToBytes(a[n].entry.end))
    ensures NodeBounded(b, l2, i, r2)
  {
    hide StartsBefore, Le, MaxBytes, Indices, BoundToBytes;
    var more := BoundToBytes(a[n].entry.end);
    MaxBytesBounds(BoundToBytes(a[i].entry.end), a[i].maxEnd, more);
    forall k | k in Indices(l2) || k in Indices(r2) ensures Le(BoundToBytes(b[k].entry.end), b[i].maxEnd) {
      MaxBytesBounds(BoundToBytes(a[k].entry.end), a[i].maxEnd, more);
    }
  }

  lemma ForkTree(a: seq<IntervalNode>, l: Shape, i: nat, r: Shape)
    requires i < |a| && Tree(a, a[i].left, l) && Tree(a, a[i].right, r) && NodeOk(a, l, i, r)
    ensures Tree(a, Some(i), Fork(l, i, r))
  {
  }

  /** The walk turns the tree into the grown tree. */
  lemma {:induction false} HangGrowsTree(a: seq<IntervalNode>, t: Shape, n: nat)
    requires t != Leaf && Tree(a, Some(t.idx), t) && IsFreshNode(a, t, n)
    ensures Tree(Hang(a, t, n), Some(t.idx), Grown(a, t, n))
    decreases t, 1
  {
    var i := t.idx;
    var l2, r2 := HangGrowsChildren(a, t, n);
    HangFrame(a, t, n);
    HangRaises(a, t, n);
    NodeOkGrows(a, Hang(a, t, n), t.left, l2, i, t.right, r2, n);
    ForkTree(Hang(a, t, n), l2, i, r2);
  }

  lemma HangRaises(a: seq<IntervalNode>, t: Shape, n: nat)
    requires t != Leaf && Tree(a, Some(t.idx), t) && n < |a|
    ensures Hang(a, t, n)[t.idx].maxEnd == MaxBytes(a[t.idx].maxEnd, BoundToBytes(a[n].entry.end))
  {
    hide StartsBefore, MaxBytes, BoundToBytes;
    var a1 := WithMaxEnd(a, t.idx, BoundToBytes(a[n].entry.end));
    InArenaSameLength(a, a1, t.left);
    InArenaSameLength(a, a1, t.right);
    if t.left != Leaf { HangFrame(a1, t.left, n); }
    if t.right != Leaf { HangFrame(a1, t.right, n); }
  }

  lemma HangGrowsChildren(a: seq<IntervalNode>, t: Shape, n: nat) returns (l2: Shape, r2: Shape)
    requires t != Leaf && Tree(a, Some(t.idx), t) && IsFreshNode(a, t, n)
    ensures Grown(a, t, n) == Fork(l2, t.idx, r2)
    ensures if StartsBefore(a[n].entry, a[t.idx].entry)
            then Indices(l2) == Indices(t.left) + {n} && r2 == t.right
            else l2 == t.left && Indices(r2) == Indices(t.right) + {n}
    ensures Tree(Hang(a, t, n), Hang(a, t, n)[t.idx].left, l2)
    ensures Tree(Hang(a, t, n), Hang(a, t, n)[t.idx].right, r2)
    decreases t, 0
  {
    hide StartsBefore, NodeOk, Tree;
    var i := t.idx;
    var a1 := WithMaxEnd(a, i, BoundToBytes(a[n].entry.end));
    var b := Hang(a, t, n);
    RaisedChildren(a, t, BoundToBytes(a[n].entry.end));
    FreshBelow(a, a1, t, n);
    l2, r2 := t.left, t.right;
    if StartsBefore(a[n].entry, a[i].entry) {
      l2 := Grown(a, t.left, n);
      GrownIndices(a, t.left, n);
      HangSubtree(a, a1, t.left, n, i, true, b);
      TreeFrame(a1, b, a1[i].right, t.right);
    } else {
      r2 := Grown(a, t.right, n);
      GrownIndices(a, t.right, n);
      HangSubtree(a, a1, t.right, n, i, false, b);
      TreeFrame(a1, b, a1[i].left, t.left);
    }
  }

  /** Raising the bound of the root leaves both of its trees as they were. */
  lemma RaisedChildren(a: seq<IntervalNode>, t: Shape, end: bytes)
    requires t != Leaf && Tree(a, Some(t.idx), t)
    ensures t.idx !in Indices(t.left) && t.idx !in Indices(t.right) && Indices(t.left) !! Indices(t.right)
    ensures forall k | k in Indices(t.left) :: k < |a|
    ensures forall k | k in Indices(t.right) :: k < |a|
    ensures var a1 := WithMaxEnd(a, t.idx, end);
            Tree(a1, a1[t.idx].left, t.left) && Tree(a1, a1[t.idx].right, t.right)
  {
    NodeOkSeparates(a, t.left, t.idx, t.right);
    hide NodeOk, MaxBytes, Indices;
    var a1 := WithMaxEnd(a, t.idx, end);
    TreeFrame(a, a1, a[t.idx].left, t.left);
    TreeFrame(a, a1, a[t.idx].right, t.right);
  }

  lemma FreshBelow(a: seq<IntervalNode>, a1: seq<IntervalNode>, t: Shape, n: nat)
    requires t != Leaf && IsFreshNode(a, t, n) && |a1| == |a| && a1[n] == a[n]
    ensures IsFreshNode(a1, t.left, n) && IsFreshNode(a1, t.right, n) && t.idx != n
  {
  }

  lemma NodeOkSeparates(a: seq<IntervalNode>, l: Shape, i: nat, r: Shape)
    requires i < |a| && NodeOk(a, l, i, r)
    ensures i !in Indices(l) && i !in Indices(r) && Indices(l) !! Indices(r)
    ensures forall k | k in Indices(l) :: k < |a|
    ensures forall k | k in Indices(r) :: k < |a|
  {
  }

  /** One side of the walk: node `n` becomes the child of `i`, or hangs deeper on that side. */
  lemma HangSubtree(a: seq<IntervalNode>, a1: seq<IntervalNode>, sub: Shape, n: nat, i: nat, goLeft: bool,
                    b: seq<IntervalNode>)
    requires i < |a| && i != n && i !in Indices(sub) && SameEntries(a, a1) && InArena(a, sub) && IsFreshNode(a1, sub, n)
    requires Tree(a1, if goLeft then a1[i].left else a1[i].right, sub)
    requires b == if sub != Leaf then Hang(a1, sub, n)
                  else if goLeft then a1[i := a1[i].(left := Some(n))]
                  else a1[i := a1[i].(right := Some(n))]
    ensures |b| == |a1| && Tree(b, if goLeft then b[i].left else b[i].right, Grown(a, sub, n))
    ensures forall k | 0 <= k < |a1| && k !in Indices(sub) && k != i :: b[k] == a1[k]
    ensures if goLeft then b[i].right == a1[i].right else b[i].left == a1[i].left
    decreases sub, 2
  {
    GrownDependsOnEntries(a, a1, sub, n);
    if sub != Leaf {
      HangFrame(a1, sub, n);
      HangGrowsTree(a1, sub, n);
    } else {
      ForkTree(b, Leaf, n, Leaf);
    }
  }

  // ---------------------------------------------------------------- search

  /** The pruned walk of `FindOverlappingRecursive`, as one function. */
  function Search(a: seq<IntervalNode>, t: Shape, start: Bound, end: Bound): seq<RangeLockEntry>
    requires InArena(a, t)
    decreases t
  {
    match t
    case Leaf => []
    case Fork(l, i, r) =>
      if BoundLessThan(a[i].maxEnd, start) then []
      else
        Search(a, l, start, end)
        + (if a[i].entry.Overlaps(start, end) then [a[i].entry] else [])
        + (if BoundGreaterThan(a[i].entry.start, end) then [] else Search(a, r, start, end))
  }

  ghost predicate AllEndsBounded(es: seq<RangeLockEntry>) {
    forall e | e in es :: e.end != Unbounded
  }

  lemma OverlappingSplits(l: seq<RangeLockEntry>, x: RangeLockEntry, r: seq<RangeLockEntry>, start: Bound, end: Bound)
    ensures Overlapping(l + [x] + r, start, end)
         == Overlapping(l, start, end) + (if x.Overlaps(start, end) then [x] else []) + Overlapping(r, start, end)
  {
    OverlappingConcat(l + [x], r, start, end);
    OverlappingConcat(l, [x], start, end);
  }

  /** Nothing in a tree with too small a bound overlaps the query. */
  lemma PrunedTree(a: seq<IntervalNode>, t: Shape, start: Bound, end: Bound)
    requires t.Fork? && Tree(a, Some(t.idx), t) && BoundLessThan(a[t.idx].maxEnd, start)
    requires WithinSentinel(start) || AllEndsBounded(Entries(a, t))
    ensures Overlapping(Entries(a, t), start, end) == []
  {
    forall e | e in Entries(a, t) ensures !e.Overlaps(start, end) {
      EntriesMembers(a, t, e);
      var k :| k in Indices(t) && k < |a| && a[k].entry == e;
      MaxEndPrunes(e, a[t.idx].maxEnd, start, end);
    }
    NoneOverlapping(Entries(a, t), start, end);
  }

  lemma PrunedRight(a: seq<IntervalNode>, l: Shape, i: nat, r: Shape, start: Bound, end: Bound)
    requires i < |a| && InArena(a, r) && NodeOk(a, l, i, r) && BoundGreaterThan(a[i].entry.start, end)
    ensures Overlapping(Entries(a, r), start, end) == []
  {
    forall e | e in Entries(a, r) ensures !e.Overlaps(start, end) {
      EntriesMembers(a, r, e);
      var k :| k in Indices(r) && k < |a| && a[k].entry == e;
      StartPrunes(a[i].entry, e, start, end);
    }
    NoneOverlapping(Entries(a, r), start, end);
  }

  /** The pruned walk finds exactly what a scan in order finds. */
  lemma {:induction false} SearchIsScan(a: seq<IntervalNode>, link: Option<nat>, t: Shape, start: Bound, end: Bound)
    requires Tree(a, link, t)
    requires WithinSentinel(start) || AllEndsBounded(Entries(a, t))
    ensures Search(a, t, start, end) == Overlapping(Entries(a, t), start, end)
    decreases t
  {
    match t
    case Leaf =>
    case Fork(l, i, r) =>
      if BoundLessThan(a[i].maxEnd, start) {
        PrunedTree(a, t, start, end);
      } else {
        SearchIsScan(a, a[i].left, l, start, end);
        SearchIsScan(a, a[i].right, r, start, end);
        if BoundGreaterThan(a[i].entry.start, end) {
          PrunedRight(a, l, i, r, start, end);
        }
        OverlappingSplits(Entries(a, l), a[i].entry, Entries(a, r), start, end);
      }
  }

  /** Whatever the query, the walk finds only overlapping entries of the tree. */
  lemma {:induction false} SearchIsSound(a: seq<IntervalNode>, t: Shape, start: Bound, end: Bound, e: RangeLockEntry)
    requires InArena(a, t) && e in Search(a, t, start, end)
    ensures e in Entries(a, t) && e.Overlaps(start, end)
    decreases t
  {
    match t
    case Leaf =>
    case Fork(l, i, r) =>
      if e in Search(a, l, start, end) {
        SearchIsSound(a, l, start, end, e);
      } else if e in Search(a, r, start, end) {
        SearchIsSound(a, r, start, end, e);
      }
  }

  /** Whatever the query, the walk finds every overlapping entry that has an end. */
  lemma {:induction false} SearchFindsEnded(a: seq<IntervalNode>, link: Option<nat>, t: Shape,
                                            start: Bound, end: Bound, e: RangeLockEntry)
    requires Tree(a, link, t) && e in Entries(a, t) && e.end != Unbounded && e.Overlaps(start, end)
    ensures e in Search(a, t, start, end)
    decreases t
  {
    match t
    case Fork(l, i, r) =>
      EntriesMembers(a, t, e);
      var k :| k in Indices(t) && k < |a| && a[k].entry == e;
      if BoundLessThan(a[i].maxEnd, start) {
        MaxEndPrunes(e, a[i].maxEnd, start, end);
      } else if e in Entries(a, l) {
        SearchFindsEnded(a, a[i].left, l, start, end, e);
      } else if e in Entries(a, r) {
        SearchFindsEnded(a, a[i].right, r, start, end, e);
        if BoundGreaterThan(a[i].entry.start, end) {
          PrunedRight(a, l, i, r, start, end);
          OverlappingMembers(Entries(a, r), start, end, e);
        }
      }
  }

  function NodeEntries(a: seq<IntervalNode>): seq<RangeLockEntry> {
    seq(|a|, i requires 0 <= i < |a| => a[i].entry)
  }

  /** The arena is one well-formed tree rooted at node 0 that reaches every node once. */
  ghost predicate IsArena(a: seq<IntervalNode>, t: Shape) {
    && Tree(a, if a == [] then None else Some(0), t)
    && (forall k: nat :: k in Indices(t) <==> k < |a|)
    && multiset(Entries(a, t)) == multiset(NodeEntries(a))
  }

  /**
   The search is exact on every arena precisely when the query does not start beyond the sentinel:
   past it, a range without an end is pruned away.
   */
  lemma SearchExactIffWithinSentinel(start: Bound, end: Bound)
    ensures WithinSentinel(start) <==>
            forall a, t :: IsArena(a, t) ==> Search(a, t, start, end) == Overlapping(Entries(a, t), start, end)
  {
    if WithinSentinel(start) {
      forall a, t | IsArena(a, t) ensures Search(a, t, start, end) == Overlapping(Entries(a, t), start, end) {
        SearchIsScan(a, if a == [] then None else Some(0), t, start, end);
      }
    } else {
      var a, t := BeyondSentinel(start, end);
    }
  }

  /** A single range without bounds overlaps every query and is missed by one beyond the sentinel. */
  lemma BeyondSentinel(start: Bound, end: Bound) returns (a: seq<IntervalNode>, t: Shape)
    requires !WithinSentinel(start)
    ensures IsArena(a, t) && Search(a, t, start, end) == [] && Overlapping(Entries(a, t), start, end) != []
  {
    var e := RangeLockEntry(0, X, Unbounded, Unbounded);
    a, t := [IntervalNode(e, Sentinel(), None, None)], Fork(Leaf, 0, Leaf);
    FirstNodeIsArena(a[0]);
    assert Entries(a, t) == [e];
    assert e.Overlaps(start, end);
  }

  lemma FirstNodeIsArena(node: IntervalNode)
    requires node.left == None && node.right == None && node.maxEnd == BoundToBytes(node.entry.end)
    ensures IsArena([node], Fork(Leaf, 0, Leaf))
    ensures Entries([node], Fork(Leaf, 0, Leaf)) == [node.entry] == NodeEntries([node])
  {
    assert NodeEntries([node]) == [node.entry] == Entries([node], Fork(Leaf, 0, Leaf));
  }

  /** In order, the entries of an arena are sorted by their starts. */
  lemma {:induction false} TreeIsSorted(a: seq<IntervalNode>, link: Option<nat>, t: Shape)
    requires Tree(a, link, t)
    ensures SortedByStart(Entries(a, t))
    decreases t
  {
    match t
    case Leaf =>
    case Fork(l, i, r) =>
      TreeIsSorted(a, a[i].left, l);
      TreeIsSorted(a, a[i].right, r);
      var x := a[i].entry;
      forall y | y in Entries(a, l) ensures StartsBefore(y, x) {
        EntriesMembers(a, l, y);
      }
      forall y | y in Entries(a, r) ensures !StartsBefore(y, x) {
        EntriesMembers(a, r, y);
      }
      SortedAround(Entries(a, l), x, Entries(a, r));
  }

  lemma SortedAround(l: seq<RangeLockEntry>, x: RangeLockEntry, r: seq<RangeLockEntry>)
    requires SortedByStart(l) && SortedByStart(r)
    requires forall y | y in l :: StartsBefore(y, x)
    requires forall y | y in r :: !StartsBefore(y, x)
    ensures SortedByStart(l + [x] + r)
  {
    hide StartsBefore;
    var s := l + [x] + r;
    forall i, j | 0 <= i < j < |s| ensures !StartsBefore(s[j], s[i]) {
      StartsBeforeFacts(s[i], x, s[j]);
      if i < |l| {
        assert s[i] == l[i];
      }
      if j > |l| {
        assert s[j] == r[j - |l| - 1];
      }
    }
  }

  lemma StartsBeforeFacts(a: RangeLockEntry, x: RangeLockEntry, b: RangeLockEntry)
    ensures StartsBefore(a, x) ==> !StartsBefore(x, a)
    ensures StartsBefore(a, x) && !StartsBefore(b, x) ==> !StartsBefore(b, a)
  {
    CompareStartsIsTotalOrder(a.start, x.start, b.start);
    CompareStartsIsTotalOrder(b.start, a.start, x.start);
  }

  class IntervalTree {
    var nodes: seq<IntervalNode>
    ghost var shape: Shape

    ghost predicate Valid()
      reads this
    {
      IsArena(nodes, shape)
    }

    /** The stored entries in the order of the tree. */
    ghost function Contents(): seq<RangeLockEntry>
      reads this
      requires Valid()
    {
      Entries(nodes, shape)
    }

    constructor ()
      ensures Valid() && Contents() == []
    {
      nodes, shape := [], Leaf;
    }

    method Insert(entry: RangeLockEntry)
      requires Valid()
      modifies this
      ensures Valid()
      ensures Contents() == InsertEntry(old(Contents()), entry)
      ensures NodeEntries(nodes) == old(NodeEntries(nodes)) + [entry]
    {
      hide Tree, InsertEntry, IsArena, IsFreshNode, Hang, Grown, Indices, Entries;
      var maxEnd := BoundToBytes(entry.end);
      var node := IntervalNode(entry, maxEnd, None, None);
      ghost var grown := nodes + [node];
      ghost var t := shape;
      if nodes == [] {
        nodes := [node];
        shape := Fork(Leaf, 0, Leaf);
        FirstNode(node, t);
        return;
      }
      var newIdx := |nodes|;
      var idx := 0;
      ghost var sub := shape;
      InsertStarts(nodes, node, t);
      while true
        invariant |nodes| == newIdx && sub.Fork? && sub.idx == idx < newIdx && shape == t
        invariant Tree(nodes + [node], Some(idx), sub)
        invariant IsFreshNode(nodes + [node], sub, newIdx)
        invariant InArena(grown, t)
        invariant Hang(nodes + [node], sub, newIdx) == Hang(grown, t, newIdx)
        decreases sub
      {
        ghost var a := nodes + [node];
        ghost var a1 := WithMaxEnd(a, idx, maxEnd);
        if Lt(nodes[idx].maxEnd, maxEnd) {
          nodes := nodes[idx := nodes[idx].(maxEnd := maxEnd)];
        }
        assert nodes + [node] == a1;
        WalkStep(a, sub, newIdx);
        if CompareStarts(entry.start, nodes[idx].entry.start) == Less {
          if nodes[idx].left.Some? {
            idx := nodes[idx].left.value;
            sub := sub.left;
          } else {
            nodes := nodes[idx := nodes[idx].(left := Some(newIdx))];
            break;
          }
        } else if nodes[idx].right.Some? {
          idx := nodes[idx].right.value;
          sub := sub.right;
        } else {
          nodes := nodes[idx := nodes[idx].(right := Some(newIdx))];
          break;
        }
      }
      nodes := nodes + [node];
      assert nodes == Hang(grown, t, newIdx);
      shape := Grown(grown, t, newIdx);
      InsertEnds(old(nodes), node, t, nodes, shape);
    }

    method FindOverlapping(start: Bound, end: Bound) returns (results: seq<RangeLockEntry>)
      requires Valid()
      ensures InArena(nodes, shape) && results == Search(nodes, shape, start, end)
      ensures WithinSentinel(start) || AllEndsBounded(Contents()) ==> results == Overlapping(Contents(), start, end)
      ensures forall e | e in results :: e in Contents() && e.Overlaps(start, end)
      ensures forall e | e in Contents() && e.end != Unbounded && e.Overlaps(start, end) :: e in results
    {
      results := [];
      if nodes != [] {
        results := FindOverlappingRecursive(0, start, end, results, shape);
      }
      if WithinSentinel(start) || AllEndsBounded(Contents()) {
        SearchIsScan(nodes, if nodes == [] then None else Some(0), shape, start, end);
      }
      forall e | e in results ensures e in Contents() && e.Overlaps(start, end) {
        SearchIsSound(nodes, shape, start, end, e);
      }
      forall e | e in Contents() && e.end != Unbounded && e.Overlaps(start, end) ensures e in results {
        SearchFindsEnded(nodes, if nodes == [] then None else Some(0), shape, start, end, e);
      }
    }

    method FindOverlappingRecursive(idx: nat, start: Bound, end: Bound, results: seq<RangeLockEntry>, ghost t: Shape)
      returns (found: seq<RangeLockEntry>)
      requires Tree(nodes, Some(idx), t)
      ensures found == results + Search(nodes, t, start, end)
      decreases t
    {
      hide *;
      found := results;
      SearchStep(nodes, idx, t, start, end);
      var node := nodes[idx];
      if BoundLessThan(node.maxEnd, start) {
        return;
      }
      if node.left.Some? {
        found := FindOverlappingRecursive(node.left.value, start, end, found, t.left);
      }
      ghost var afterLeft := found;
      if node.entry.Overlaps(start, end) {
        found := found + [node.entry];
      }
      ghost var afterNode := found;
      if !BoundGreaterThan(node.entry.start, end) && node.right.Some? {
        found := FindOverlappingRecursive(node.right.value, start, end, found, t.right);
      }
      AppendThree(results, Search(nodes, t.left, start, end),
                  if node.entry.Overlaps(start, end) then [node.entry] else [],
                  if BoundGreaterThan(node.entry.start, end) then [] else Search(nodes, t.right, start, end),
                  afterLeft, afterNode, found);
    }

    method FindContainingKey(key: bytes) returns (results: seq<RangeLockEntry>)
      requires Valid()
      ensures WithinSentinel(Included(key)) || AllEndsBounded(Contents()) ==> results == ContainingKey(Contents(), key)
      ensures forall e | e in results :: e in Contents() && e.ContainsKey(key)
      ensures forall e | e in Contents() && e.end != Unbounded && e.ContainsKey(key) :: e in results
    {
      results := FindOverlapping(Included(key), Included(key));
      PointOverlapping(Contents(), key);
      forall e: RangeLockEntry ensures e.ContainsKey(key) <==> e.Overlaps(Included(key), Included(key)) {
        PointOverlapIsContainment(e, key);
      }
    }

    /** Drops the ranges of one transaction and rebuilds the tree from the rest. */
    method RemoveByTxn(txnId: TxnId)
      requires Valid()
      modifies this
      ensures Valid()
      ensures multiset(Contents()) == multiset(WithoutTxn(old(Contents()), txnId))
    {
      hide Tree;
      WithoutTxnOfSameEntries(Contents(), NodeEntries(nodes), txnId);
      ghost var before := NodeEntries(nodes);
      nodes := Retain(nodes, txnId);
      RetainEntries(old(nodes), txnId);
      Rebuild();
    }

    method Rebuild()
      modifies this
      ensures Valid()
      ensures NodeEntries(nodes) == old(NodeEntries(nodes))
    {
      EmptyArena();
      if nodes == [] {
        shape := Leaf;
        return;
      }
      var entries := NodeEntries(nodes);
      nodes, shape := [], Leaf;
      hide Tree, IsArena;
      InsertAll(entries);
    }

    method InsertAll(entries: seq<RangeLockEntry>)
      requires Valid() && nodes == []
      modifies this
      ensures Valid() && NodeEntries(nodes) == entries
    {
      hide Valid, NodeEntries;
      EmptyArena();
      for i := 0 to |entries|
        invariant Valid() && NodeEntries(nodes) == entries[..i]
      {
        Insert(entries[i]);
        assert entries[..i + 1] == entries[..i] + [entries[i]];
      }
      assert entries[..|entries|] == entries;
    }
  }

  /** One level of the pruned walk. */
  lemma SearchStep(a: seq<IntervalNode>, idx: nat, t: Shape, start: Bound, end: Bound)
    requires Tree(a, Some(idx), t)
    ensures t.Fork? && idx < |a| && InArena(a, t.left) && InArena(a, t.right)
    ensures a[idx].left.Some? ==> Tree(a, a[idx].left, t.left)
    ensures a[idx].right.Some? ==> Tree(a, a[idx].right, t.right)
    ensures a[idx].left.None? ==> Search(a, t.left, start, end) == []
    ensures a[idx].right.None? ==> Search(a, t.right, start, end) == []
    ensures Search(a, t, start, end) ==
            if BoundLessThan(a[idx].maxEnd, start) then []
            else Search(a, t.left, start, end)
                 + (if a[idx].entry.Overlaps(start, end) then [a[idx].entry] else [])
                 + (if BoundGreaterThan(a[idx].entry.start, end) then [] else Search(a, t.right, start, end))
  {
  }

  lemma AppendThree<T>(s: seq<T>, a: seq<T>, b: seq<T>, c: seq<T>, s1: seq<T>, s2: seq<T>, s3: seq<T>)
    requires s1 == if a == [] then s else s + a
    requires s2 == if b == [] then s1 else s1 + b
    requires s3 == if c == [] then s2 else s2 + c
    ensures s3 == s + (a + b + c)
  {
  }

  lemma EmptyArena()
    ensures IsArena([], Leaf) && NodeEntries([]) == []
  {
  }

  /** `Vec::retain` on the arena. */
  function Retain(a: seq<IntervalNode>, txnId: TxnId): seq<IntervalNode> {
    if a == [] then []
    else (if a[0].entry.txnId != txnId then [a[0]] else []) + Retain(a[1..], txnId)
  }

  lemma {:induction false} RetainEntries(a: seq<IntervalNode>, txnId: TxnId)
    ensures NodeEntries(Retain(a, txnId)) == WithoutTxn(NodeEntries(a), txnId)
  {
    if a != [] {
      RetainEntries(a[1..], txnId);
      assert NodeEntries(a)[1..] == NodeEntries(a[1..]);
      var rest := Retain(a[1..], txnId);
      assert NodeEntries([a[0]] + rest) == [a[0].entry] + NodeEntries(rest);
    }
  }

  lemma FirstNode(node: IntervalNode, t: Shape)
    requires IsArena([], t) && node.left == None && node.right == None && node.maxEnd == BoundToBytes(node.entry.end)
    ensures InArena([], t) && IsArena([node], Fork(Leaf, 0, Leaf))
    ensures Entries([node], Fork(Leaf, 0, Leaf)) == InsertEntry(Entries([], t), node.entry)
    ensures NodeEntries([node]) == NodeEntries([]) + [node.entry]
  {
    FirstNodeIsArena(node);
    assert Entries([], t) == [];
  }

  lemma AppendKeepsTree(a: seq<IntervalNode>, node: IntervalNode, t: Shape)
    requires a != [] && IsArena(a, t)
    ensures Tree(a + [node], Some(0), t) && Entries(a + [node], t) == Entries(a, t)
  {
    ArenaIndices(a, t);
    hide Indices, Entries, NodeOk;
    assert Tree(a, Some(0), t);
    hide Tree, IsArena;
    TreeFrame(a, a + [node], Some(0), t);
  }

  lemma InsertStarts(a: seq<IntervalNode>, node: IntervalNode, t: Shape)
    requires a != [] && IsArena(a, t)
    requires node.left == None && node.right == None && node.maxEnd == BoundToBytes(node.entry.end)
    ensures Tree(a + [node], Some(0), t) && t.Fork? && t.idx == 0
    ensures IsFreshNode(a + [node], t, |a|)
    ensures Entries(a + [node], t) == Entries(a, t)
  {
    hide Indices, Entries, NodeOk, IsArena, BoundToBytes;
    AppendKeepsTree(a, node, t);
    ArenaIndices(a, t);
  }

  lemma ArenaIndices(a: seq<IntervalNode>, t: Shape)
    requires IsArena(a, t)
    ensures forall k: nat :: k in Indices(t) <==> k < |a|
  {
    hide Indices, Tree, Entries;
  }

  /** Where the walk goes from the root of `t`. */
  lemma WalkStep(a: seq<IntervalNode>, t: Shape, n: nat)
    requires t.Fork? && Tree(a, Some(t.idx), t) && IsFreshNode(a, t, n)
    ensures t.idx < n
    ensures var a1 := WithMaxEnd(a, t.idx, BoundToBytes(a[n].entry.end));
            && Tree(a1, a1[t.idx].left, t.left) && Tree(a1, a1[t.idx].right, t.right)
            && IsFreshNode(a1, t.left, n) && IsFreshNode(a1, t.right, n)
            && a1[t.idx].left == (if t.left.Fork? then Some(t.left.idx) else None)
            && a1[t.idx].right == (if t.right.Fork? then Some(t.right.idx) else None)
            && (t.left.Fork? ==> t.left.idx < n) && (t.right.Fork? ==> t.right.idx < n)
            && Hang(a, t, n) == if StartsBefore(a[n].entry, a[t.idx].entry)
                                then if t.left == Leaf then a1[t.idx := a1[t.idx].(left := Some(n))]
                                    else Hang(a1, t.left, n)
                                else if t.right == Leaf then a1[t.idx := a1[t.idx].(right := Some(n))]
                                    else Hang(a1, t.right, n)
  {
    var a1 := WithMaxEnd(a, t.idx, BoundToBytes(a[n].entry.end));
    RaisedChildren(a, t, BoundToBytes(a[n].entry.end));
    FreshBelow(a, a1, t, n);
  }

  lemma InsertEnds(a: seq<IntervalNode>, node: IntervalNode, t: Shape, b: seq<IntervalNode>, u: Shape)
    requires a != [] && IsArena(a, t) && InArena(a + [node], t)
    requires node.left == None && node.right == None && node.maxEnd == BoundToBytes(node.entry.end)
    requires b == Hang(a + [node], t, |a|) && u == Grown(a + [node], t, |a|)
    ensures IsArena(b, u)
    ensures Entries(b, u) == InsertEntry(Entries(a, t), node.entry)
    ensures NodeEntries(b) == NodeEntries(a) + [node.entry]
  {
    hide Tree, Hang, Grown, InsertEntry, NodeEntries, Indices, Entries, InArena;
    HangEnds(a, node, t, b, u);
    InsertMatchesAppend(Entries(a, t), NodeEntries(a), node.entry);
    NodeEntriesGrow(a, node, b);
    MakeArena(b, u);
  }

  lemma HangEnds(a: seq<IntervalNode>, node: IntervalNode, t: Shape, b: seq<IntervalNode>, u: Shape)
    requires a != [] && IsArena(a, t) && InArena(a + [node], t)
    requires node.left == None && node.right == None && node.maxEnd == BoundToBytes(node.entry.end)
    requires b == Hang(a + [node], t, |a|) && u == Grown(a + [node], t, |a|)
    ensures SameEntries(a + [node], b) && Tree(b, Some(0), u)
    ensures forall k: nat :: k in Indices(u) <==> k <= |a|
    ensures Entries(b, u) == InsertEntry(Entries(a, t), node.entry)
  {
    hide Tree, Hang, Grown, IsArena, IsFreshNode, Indices, Entries, InsertEntry, InArena;
    var g, n := a + [node], |a|;
    InsertStarts(a, node, t);
    ArenaIndices(a, t);
    HangGrowsTree(g, t, n);
    GrownEntries(g, Some(0), t, n);
    GrownIndices(g, t, n);
    HangFrame(g, t, n);
    InArenaSameLength(g, b, u);
    EntriesSame(g, b, u);
  }

  lemma InsertMatchesAppend(es: seq<RangeLockEntry>, ns: seq<RangeLockEntry>, e: RangeLockEntry)
    requires multiset(es) == multiset(ns)
    ensures multiset(InsertEntry(es, e)) == multiset(ns + [e])
  {
    InsertAddsOne(es, e);
  }

  lemma MakeArena(a: seq<IntervalNode>, t: Shape)
    requires a != [] && Tree(a, Some(0), t)
    requires forall k: nat :: k in Indices(t) <==> k < |a|
    requires multiset(Entries(a, t)) == multiset(NodeEntries(a))
    ensures IsArena(a, t)
  {
  }

  lemma NodeEntriesGrow(a: seq<IntervalNode>, node: IntervalNode, b: seq<IntervalNode>)
    requires SameEntries(a + [node], b)
    ensures NodeEntries(b) == NodeEntries(a) + [node.entry]
  {
    forall k | 0 <= k < |b| ensures NodeEntries(b)[k] == (NodeEntries(a) + [node.entry])[k] {
      assert b[k].entry == (a + [node])[k].entry;
    }
  }
}
