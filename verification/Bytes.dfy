/** Byte strings, their lexicographic order, and the little-endian integers of the file formats. */
module Bytes {

  type u8 = x: int | 0 <= x < 256
  type bytes = seq<u8>

  const U32_MAX: nat := 0xFFFF_FFFF
  const U32_MOD: nat := 0x1_0000_0000
  const U64_MAX: nat := 0xFFFF_FFFF_FFFF_FFFF
  const U64_MOD: nat := 0x1_0000_0000_0000_0000

  type u32 = x: int | 0 <= x < 0x1_0000_0000
  type u64 = x: int | 0 <= x < 0x1_0000_0000_0000_0000

  datatype Option<+T> = None | Some(value: T)

  datatype Ordering = Less | Equal | Greater {
    function Reverse(): Ordering {
      match this
      case Less => Greater
      case Equal => Equal
      case Greater => Less
    }
  }

  function CompareInt(a: int, b: int): Ordering {
    if a < b then Less else if a == b then Equal else Greater
  }

  // ---------------------------------------------------------------- lexicographic order

  /** Strict lexicographic order, the order of Rust byte slices. */
  predicate Lt(a: bytes, b: bytes)
    decreases |a|
  {
    if b == [] then false
    else if a == [] then true
    else if a[0] != b[0] then a[0] < b[0]
    else Lt(a[1..], b[1..])
  }

  predicate Le(a: bytes, b: bytes) {
    a == b || Lt(a, b)
  }

  function Compare(a: bytes, b: bytes): Ordering {
    if Lt(a, b) then Less else if a == b then Equal else Greater
  }

  lemma {:induction false} LtIrreflexive(a: bytes)
    ensures !Lt(a, a)
  {
    if a != [] {
      LtIrreflexive(a[1..]);
    }
  }

  lemma {:induction false} LtTransitive(a: bytes, b: bytes, c: bytes)
    requires Lt(a, b) && Lt(b, c)
    ensures Lt(a, c)
    decreases |a|
  {
    if a != [] && a[0] == b[0] == c[0] {
      LtTransitive(a[1..], b[1..], c[1..]);
    }
  }

  lemma {:induction false} LtTotal(a: bytes, b: bytes)
    ensures Lt(a, b) || a == b || Lt(b, a)
    decreases |a|
  {
    if a != [] && b != [] && a[0] == b[0] {
      LtTotal(a[1..], b[1..]);
      assert a == [a[0]] + a[1..] && b == [b[0]] + b[1..];
    }
  }

  /** `Lt` is a strict total order; the one lemma clients of the order call. */
  lemma LtIsStrictTotalOrder()
    ensures forall a: bytes :: !Lt(a, a)
    ensures forall a: bytes, b: bytes, c: bytes {:trigger Lt(a, b), Lt(b, c)} :: Lt(a, b) && Lt(b, c) ==> Lt(a, c)
    ensures forall a: bytes, b: bytes {:trigger Lt(a, b)} {:trigger Lt(b, a)} :: Lt(a, b) || a == b || Lt(b, a)
  {
    forall a: bytes ensures !Lt(a, a) {
      LtIrreflexive(a);
    }
    forall a: bytes, b: bytes, c: bytes | Lt(a, b) && Lt(b, c) ensures Lt(a, c) {
      LtTransitive(a, b, c);
    }
    forall a: bytes, b: bytes ensures Lt(a, b) || a == b || Lt(b, a) {
      LtTotal(a, b);
    }
  }

  /** The first position where two strings differ decides their order. */
  lemma {:induction false} CompareAtFirstDifference(a: bytes, b: bytes, i: nat)
    requires i < |a| && i < |b|
    requires a[..i] == b[..i] && a[i] != b[i]
    ensures Compare(a, b) == CompareInt(a[i], b[i])
  {
    if i > 0 {
      assert a[0] == a[..i][0] == b[..i][0] == b[0];
      assert a[1..][..i - 1] == a[..i][1..] == b[..i][1..] == b[1..][..i - 1];
      CompareAtFirstDifference(a[1..], b[1..], i - 1);
    }
  }

  /** Two strings that agree as far as the shorter goes are ordered by length. */
  lemma {:induction false} CompareByLength(a: bytes, b: bytes)
    requires (|a| <= |b| && a == b[..|a|]) || (|b| <= |a| && b == a[..|b|])
    ensures Compare(a, b) == CompareInt(|a|, |b|)
  {
    if a == [] || b == [] {
    } else if |a| <= |b| {
      assert a[0] == b[0] && a[1..] == b[1..][..|a| - 1];
      CompareByLength(a[1..], b[1..]);
    } else {
      assert a[0] == b[0] && b[1..] == a[1..][..|b| - 1];
      CompareByLength(a[1..], b[1..]);
    }
  }

  // ---------------------------------------------------------------- little-endian integers

  function U32ToLe(n: u32): (b: bytes)
    ensures |b| == 4
  {
    var n1: int := n / 0x100;
    var n2: int := n1 / 0x100;
    [n % 0x100, n1 % 0x100, n2 % 0x100, n2 / 0x100]
  }

  function U32FromLe(b: bytes): u32
    requires |b| == 4
  {
    var b0: int, b1: int, b2: int, b3: int := b[0], b[1], b[2], b[3];
    b0 + 0x100 * b1 + 0x1_0000 * b2 + 0x100_0000 * b3
  }

  lemma U32RoundTrip(n: u32)
    ensures U32FromLe(U32ToLe(n)) == n
  {
  }

  function U64ToLe(n: u64): (b: bytes)
    ensures |b| == 8
  {
    U32ToLe(n % U32_MOD) + U32ToLe(n / U32_MOD)
  }

  function U64FromLe(b: bytes): u64
    requires |b| == 8
  {
    var low: int, high: int := U32FromLe(b[..4]), U32FromLe(b[4..]);
    low + U32_MOD * high
  }

  lemma U64RoundTrip(n: u64)
    ensures U64FromLe(U64ToLe(n)) == n
  {
    var low, high := n % U32_MOD, n / U32_MOD;
    U32RoundTrip(low);
    U32RoundTrip(high);
    assert U64ToLe(n)[..4] == U32ToLe(low) && U64ToLe(n)[4..] == U32ToLe(high);
    hide U32ToLe, U32FromLe;
  }

  /** The `as u32` cast. */
  function AsU32(n: nat): u32 {
    n % U32_MOD
  }

  /** A 32-bit field in front of other bytes is read back. */
  lemma FieldComesBack(n: nat, b: bytes)
    requires n < U32_MOD
    ensures (U32ToLe(AsU32(n)) + b)[..4] == U32ToLe(AsU32(n)) && (U32ToLe(AsU32(n)) + b)[4..] == b
    ensures U32FromLe((U32ToLe(AsU32(n)) + b)[..4]) == n
  {
    U32RoundTrip(AsU32(n));
    hide U32ToLe, U32FromLe;
  }

  lemma Split(a: bytes, b: bytes)
    ensures (a + b)[..|a|] == a && (a + b)[|a|..] == b
  {
  }

  function Pow2(n: nat): (p: nat)
    ensures p >= 1
  {
    if n == 0 then 1 else 2 * Pow2(n - 1)
  }
}
