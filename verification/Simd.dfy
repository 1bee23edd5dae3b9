/** Chunked byte comparison (crabstash-common/src/simd.rs) and the key order built on it (key.rs). */
module Simd {
  import opened Bytes

  const CHUNK_SIZE: nat := 16
  const ALL_EQUAL_MASK: nat := 0xFFFF

  /** Lane-wise equality of two chunks as a bit mask, lane 0 in bit 0. */
  function EqBitmask(a: bytes, b: bytes): (mask: nat)
    requires |a| == |b|
    ensures mask < Pow2(|a|)
  {
    if a == [] then 0
    else (if a[0] == b[0] then 1 else 0) + 2 * EqBitmask(a[1..], b[1..])
  }

  /** Bitwise complement of a `width`-bit word. */
  function Complement(width: nat, n: nat): nat
    requires n < Pow2(width)
  {
    Pow2(width) - 1 - n
  }

  /** `!mask` on the 32-bit mask word. */
  function Not(mask: u32): u32 {
    U32_MAX - mask
  }

  function TrailingZeros(n: nat): nat
    requires n > 0
  {
    if n % 2 == 1 then 0 else 1 + TrailingZeros(n / 2)
  }

  lemma TrailingZerosOfDouble(n: nat)
    requires n > 0
    ensures TrailingZeros(2 * n) == 1 + TrailingZeros(n)
  {
  }

  lemma {:induction false} BitmaskFullIffEqual(a: bytes, b: bytes)
    requires |a| == |b|
    ensures EqBitmask(a, b) == Pow2(|a|) - 1 <==> a == b
  {
    if a != [] {
      BitmaskFullIffEqual(a[1..], b[1..]);
      assert a == [a[0]] + a[1..] && b == [b[0]] + b[1..];
    }
  }

  lemma {:induction false} Pow2Monotonic(m: nat, n: nat)
    requires m <= n
    ensures Pow2(m) <= Pow2(n)
  {
    if m < n {
      Pow2Monotonic(m, n - 1);
    }
  }

  lemma {:induction false} Pow2Adds(m: nat, n: nat)
    ensures Pow2(m + n) == Pow2(m) * Pow2(n)
  {
    if m > 0 {
      Pow2Adds(m - 1, n);
    }
  }

  lemma Pow2Square(n: nat, p: nat)
    requires Pow2(n) == p
    ensures Pow2(n + n) == p * p
  {
    hide Pow2;
    Pow2Adds(n, n);
  }

  lemma MaskWords()
    ensures Pow2(CHUNK_SIZE) - 1 == ALL_EQUAL_MASK
    ensures Pow2(2 * CHUNK_SIZE) - 1 == U32_MAX
  {
    assert Pow2(1) == 2;
    hide Pow2;
    Pow2Square(1, 2);
    Pow2Square(2, 4);
    Pow2Square(4, 16);
    Pow2Square(8, 256);
    Pow2Square(16, 65536);
  }

  lemma TailsAgree(a: bytes, b: bytes, d: nat)
    requires a != [] && b != [] && a[0] == b[0] && d < |a| - 1 && d < |b| - 1 && a[1..][..d] == b[1..][..d]
    ensures a[..d + 1] == b[..d + 1]
    ensures a[1..][d] != b[1..][d] ==> a[d + 1] != b[d + 1]
  {
    assert a[..d + 1] == [a[0]] + a[1..][..d] && b[..d + 1] == [b[0]] + b[1..][..d];
  }

  /** The lowest clear bit of the mask is the first lane where the chunks differ. */
  lemma {:induction false} FirstClearBit(a: bytes, b: bytes, width: nat)
    requires |a| == |b| <= width
    requires a != b
    ensures EqBitmask(a, b) < Pow2(width) && Complement(width, EqBitmask(a, b)) > 0
    ensures var d := TrailingZeros(Complement(width, EqBitmask(a, b)));
            d < |a| && a[..d] == b[..d] && a[d] != b[d]
  {
    hide Pow2, EqBitmask;
    MaskHead(a, b, width);
    if a[0] == b[0] {
      assert a == [a[0]] + a[1..] && b == [b[0]] + b[1..];
      FirstClearBit(a[1..], b[1..], width - 1);
      var rest := Complement(width - 1, EqBitmask(a[1..], b[1..]));
      assert Complement(width, EqBitmask(a, b)) == 2 * rest;
      hide Complement;
      TrailingZerosOfDouble(rest);
      hide TrailingZeros;
      TailsAgree(a, b, TrailingZeros(rest));
    } else {
      OddHasNone(Complement(width, EqBitmask(a, b)));
    }
  }

  lemma OddHasNone(n: nat)
    requires n % 2 == 1
    ensures TrailingZeros(n) == 0
  {
  }

  /** Lane 0 is the lowest bit. */
  lemma MaskHead(a: bytes, b: bytes, width: nat)
    requires 0 < |a| == |b| <= width
    ensures EqBitmask(a, b) < Pow2(width) == 2 * Pow2(width - 1)
    ensures EqBitmask(a[1..], b[1..]) < Pow2(width - 1)
    ensures EqBitmask(a, b) == (if a[0] == b[0] then 1 else 0) + 2 * EqBitmask(a[1..], b[1..])
  {
    Pow2Monotonic(|a| - 1, width - 1);
  }

  /** Two prefixes that agree, and the lanes behind them that agree as well. */
  lemma LongerPrefix(a: bytes, b: bytes, offset: nat, width: nat, d: nat)
    requires offset + width <= |a| && offset + width <= |b| && d <= width
    requires a[..offset] == b[..offset]
    requires a[offset..offset + width][..d] == b[offset..offset + width][..d]
    ensures a[..offset + d] == b[..offset + d]
  {
    assert a[..offset + d] == a[..offset] + a[offset..offset + width][..d];
    assert b[..offset + d] == b[..offset] + b[offset..offset + width][..d];
  }

  lemma NextAgrees(a: bytes, b: bytes, i: nat)
    requires i < |a| && i < |b| && a[..i] == b[..i] && a[i] == b[i]
    ensures a[..i + 1] == b[..i + 1]
  {
    assert a[..i + 1] == a[..i] + [a[i]] && b[..i + 1] == b[..i] + [b[i]];
  }

  lemma LongerByChunk(a: bytes, b: bytes, offset: nat)
    requires offset + CHUNK_SIZE <= |a| && offset + CHUNK_SIZE <= |b|
    requires a[..offset] == b[..offset] && a[offset..offset + CHUNK_SIZE] == b[offset..offset + CHUNK_SIZE]
    ensures a[..offset + CHUNK_SIZE] == b[..offset + CHUNK_SIZE]
  {
    LongerPrefix(a, b, offset, CHUNK_SIZE, CHUNK_SIZE);
  }

  lemma ChunkAt(a: bytes, offset: nat, d: nat)
    requires offset + CHUNK_SIZE <= |a| && d < CHUNK_SIZE
    ensures a[offset..offset + CHUNK_SIZE][d] == a[offset + d]
  {
  }

  /** A chunk is equal exactly when all its lanes are. */
  lemma ChunkMask(a: bytes, b: bytes)
    requires |a| == |b| == CHUNK_SIZE
    ensures EqBitmask(a, b) == ALL_EQUAL_MASK <==> a == b
  {
    MaskWords();
    BitmaskFullIffEqual(a, b);
  }

  lemma MaskDifference(a: bytes, b: bytes)
    requires |a| == |b| == CHUNK_SIZE && a != b
    ensures var mask := EqBitmask(a, b);
            && mask < U32_MAX
            && var d := TrailingZeros(Not(mask));
            d < CHUNK_SIZE && a[..d] == b[..d] && a[d] != b[d]
  {
    hide EqBitmask, TrailingZeros, Pow2, Complement, Not;
    FirstClearBit(a, b, 2 * CHUNK_SIZE);
    NotIsComplement(EqBitmask(a, b));
  }

  /** The lane found from the mask is the first difference of the whole strings. */
  lemma FirstDifferenceInChunk(a: bytes, b: bytes, offset: nat)
    requires offset + CHUNK_SIZE <= |a| && offset + CHUNK_SIZE <= |b|
    requires a[..offset] == b[..offset]
    requires a[offset..offset + CHUNK_SIZE] != b[offset..offset + CHUNK_SIZE]
    ensures var mask := EqBitmask(a[offset..offset + CHUNK_SIZE], b[offset..offset + CHUNK_SIZE]);
            && mask < U32_MAX
            && var idx := offset + TrailingZeros(Not(mask));
            && idx < |a| && idx < |b|
            && Compare(a, b) == CompareInt(a[idx], b[idx])
  {
    var chunkA, chunkB := a[offset..offset + CHUNK_SIZE], b[offset..offset + CHUNK_SIZE];
    hide EqBitmask, TrailingZeros, Not, Compare;
    MaskDifference(chunkA, chunkB);
    var d := TrailingZeros(Not(EqBitmask(chunkA, chunkB)));
    LongerPrefix(a, b, offset, CHUNK_SIZE, d);
    ChunkAt(a, offset, d);
    ChunkAt(b, offset, d);
    CompareAtFirstDifference(a, b, offset + d);
  }

  lemma NotIsComplement(mask: nat)
    requires mask < Pow2(2 * CHUNK_SIZE) && Complement(2 * CHUNK_SIZE, mask) > 0
    ensures mask < U32_MAX && Not(mask) == Complement(2 * CHUNK_SIZE, mask)
  {
    MaskWords();
    hide Pow2;
  }

  method CompareBytes(a: bytes, b: bytes) returns (ord: Ordering)
    ensures ord == Compare(a, b)
  {
    hide EqBitmask, TrailingZeros, Compare;
    var minLen := if |a| <= |b| then |a| else |b|;
    var offset := 0;
    while offset + CHUNK_SIZE <= minLen
      invariant offset <= minLen
      invariant a[..offset] == b[..offset]
    {
      var chunkA, chunkB := a[offset..offset + CHUNK_SIZE], b[offset..offset + CHUNK_SIZE];
      var bitmask := EqBitmask(chunkA, chunkB);
      ChunkMask(chunkA, chunkB);
      if bitmask != ALL_EQUAL_MASK {
        FirstDifferenceInChunk(a, b, offset);
        var firstDiff := TrailingZeros(Not(bitmask));
        var idx := offset + firstDiff;
        return CompareInt(a[idx], b[idx]);
      }
      LongerByChunk(a, b, offset);
      offset := offset + CHUNK_SIZE;
    }
    for i := offset to minLen
      invariant a[..i] == b[..i]
    {
      if a[i] != b[i] {
        CompareAtFirstDifference(a, b, i);
        return CompareInt(a[i], b[i]);
      }
      NextAgrees(a, b, i);
    }
    assert a[..|a|] == a && b[..|b|] == b;
    CompareByLength(a, b);
    ord := CompareInt(|a|, |b|);
  }

  method BytesEqual(a: bytes, b: bytes) returns (eq: bool)
    ensures eq <==> a == b
  {
    if |a| != |b| {
      return false;
    }
    hide EqBitmask;
    var offset := 0;
    while offset + CHUNK_SIZE <= |a|
      invariant offset <= |a|
      invariant a[..offset] == b[..offset]
    {
      var chunkA, chunkB := a[offset..offset + CHUNK_SIZE], b[offset..offset + CHUNK_SIZE];
      ChunkMask(chunkA, chunkB);
      if EqBitmask(chunkA, chunkB) != ALL_EQUAL_MASK {
        return false;
      }
      LongerByChunk(a, b, offset);
      offset := offset + CHUNK_SIZE;
    }
    assert a == a[..offset] + a[offset..] && b == b[..offset] + b[offset..];
    eq := a[offset..] == b[offset..];
  }

  // ---------------------------------------------------------------- versioned keys

  /** A user key with the timestamp of one of its versions. */
  datatype Key = Key(data: bytes, timestamp: nat)

  /** User keys ascending, and within one user key the newest version first. */
  function CompareKeys(a: Key, b: Key): Ordering {
    match Compare(a.data, b.data)
    case Equal => CompareInt(b.timestamp, a.timestamp)
    case ord => ord
  }

  method CompareVersionedKeys(a: Key, b: Key) returns (ord: Ordering)
    ensures ord == CompareKeys(a, b)
  {
    ord := CompareBytes(a.data, b.data);
    if ord == Equal {
      ord := CompareInt(b.timestamp, a.timestamp);
    }
  }

  predicate KeyLe(a: Key, b: Key) {
    CompareKeys(a, b) != Greater
  }

  /** The key order is total, equality on it is equality of keys, and newer versions sort first. */
  lemma KeyOrderIsTotal(a: Key, b: Key, c: Key)
    ensures CompareKeys(a, b) == Equal <==> a == b
    ensures CompareKeys(b, a) == CompareKeys(a, b).Reverse()
    ensures KeyLe(a, b) && KeyLe(b, c) ==> KeyLe(a, c)
    ensures a.data == b.data ==> (CompareKeys(a, b) == Less <==> a.timestamp > b.timestamp)
    ensures Lt(a.data, b.data) ==> CompareKeys(a, b) == Less
  {
    LtIsStrictTotalOrder();
  }
}
