/** The bloom filter of crabstash-storage/src/bloom.rs over its bytes, for any 32-bit hash of keys. */
module StorageBloom {
  import opened Bytes

  type KeyHash = bytes -> u32

  /** Bit `k` of a number. */
  predicate HasBit(n: nat, k: nat) {
    if k == 0 then n % 2 == 1 else HasBit(n / 2, k - 1)
  }

  /** `n | (1 << k)`. */
  function WithBit(n: nat, k: nat): nat {
    if k == 0 then n / 2 * 2 + 1 else WithBit(n / 2, k - 1) * 2 + n % 2
  }

  lemma {:induction false} WithBitFits(n: nat, k: nat, width: nat)
    requires k < width && n < Pow2(width)
    ensures WithBit(n, k) < Pow2(width)
  {
    var half := Pow2(width - 1);
    assert Pow2(width) == 2 * half;
    assert n / 2 < half;
    hide Pow2;
    if k > 0 {
      WithBitFits(n / 2, k - 1, width - 1);
      assert WithBit(n, k) == WithBit(n / 2, k - 1) * 2 + n % 2;
      hide WithBit;
    }
  }

  /** Setting a bit sets that bit and no other. */
  lemma {:induction false} WithBitSets(n: nat, k: nat, j: nat)
    ensures HasBit(WithBit(n, k), j) <==> j == k || HasBit(n, j)
  {
    if k > 0 {
      if j > 0 {
        WithBitSets(n / 2, k - 1, j - 1);
      }
    }
  }

  function SetBit(b: u8, k: nat): u8
    requires k < 8
  {
    assert Pow2(8) == 256 by { assert Pow2(4) == 16; }
    WithBitFits(b, k, 8);
    WithBit(b, k)
  }

  // ---------------------------------------------------------------- probes

  /** `h.rotate_left(15)`. */
  function RotateLeft15(h: u32): u32 {
    var high: int := h % 0x2_0000;
    high * 0x8000 + h / 0x2_0000
  }

  /** The `i`th hash value: the step is added with wrap-around. */
  function Probe(h: u32, i: nat): u32 {
    if i == 0 then h else (Probe(h, i - 1) + RotateLeft15(h)) % U32_MOD
  }

  function BitPosition(h: u32, i: nat, numBits: nat): (p: nat)
    requires numBits > 0
    ensures p < numBits
  {
    Probe(h, i) % numBits
  }

  predicate BitAt(bits: bytes, p: nat)
    requires p < 8 * |bits|
  {
    HasBit(bits[p / 8], p % 8)
  }

  /** The answer of `may_contain` for a key of hash `h`. */
  predicate MayContain(bits: bytes, numHashes: nat, h: u32)
    requires bits != []
  {
    forall i :: 0 <= i < numHashes ==> BitAt(bits, BitPosition(h, i, 8 * |bits|))
  }

  predicate Probed(p: nat, h: u32, n: nat, numBits: nat)
    requires numBits > 0
  {
    exists i :: 0 <= i < n && BitPosition(h, i, numBits) == p
  }

  class BloomFilter {
    const bits: array<u8>
    const numHashes: u32
    const hash: KeyHash

    /** The sizes come from floating-point formulas that stay outside; there are at least 64 bits. */
    constructor (hash: KeyHash, numBytes: nat, numHashes: u32)
      requires numBytes >= 8
      ensures Valid() && fresh(bits) && this.hash == hash && this.numHashes == numHashes && bits.Length == numBytes
    {
      this.hash, this.numHashes := hash, numHashes;
      bits := new u8[numBytes](_ => 0);
    }

    predicate Valid() {
      bits.Length > 0
    }

    /** Adds the bits of one key and leaves all others. */
    method Insert(key: bytes)
      requires Valid()
      modifies bits
      ensures MayContain(bits[..], numHashes, hash(key))
      ensures forall p :: 0 <= p < 8 * bits.Length ==>
                (BitAt(bits[..], p) <==> BitAt(old(bits[..]), p) || Probed(p, hash(key), numHashes, 8 * bits.Length))
    {
      hide BitAt, Probe, RotateLeft15, Probed;
      var numBits := 8 * bits.Length;
      var h := hash(key);
      var delta := RotateLeft15(h);
      var probe := h;
      assert forall p :: 0 <= p < numBits ==> !Probed(p, hash(key), 0, numBits) by { NoProbes(h, numBits); }
      assert probe == Probe(h, 0) by { FirstProbe(h); }
      for i := 0 to numHashes
        invariant probe == Probe(h, i)
        invariant forall p :: 0 <= p < numBits ==>
                    (BitAt(bits[..], p) <==> BitAt(old(bits[..]), p) || Probed(p, h, i, numBits))
      {
        var position := probe % numBits;
        ghost var before := bits[..];
        bits[position / 8] := SetBit(bits[position / 8], position % 8);
        OneBitMore(before, bits[..], position);
        ProbedOneMore(h, i, numBits);
        NextProbe(h, i);
        var next: nat := probe + delta;
        probe := next % U32_MOD;
      }
      AllProbed(bits[..], numHashes, h);
    }

    method MayHold(key: bytes) returns (r: bool)
      requires Valid()
      ensures r <==> MayContain(bits[..], numHashes, hash(key))
    {
      r := Test(bits[..], numHashes, hash(key));
    }
  }

  /** The loop of `may_contain`. */
  method Test(bits: bytes, numHashes: u32, h: u32) returns (r: bool)
    requires bits != []
    ensures r <==> MayContain(bits, numHashes, h)
  {
    var numBits := 8 * |bits|;
    var probe := h;
    hide Probe, RotateLeft15;
    var delta := RotateLeft15(h);
    assert probe == Probe(h, 0) by { FirstProbe(h); }
    for i := 0 to numHashes
      invariant probe == Probe(h, i)
      invariant forall j :: 0 <= j < i ==> BitAt(bits, BitPosition(h, j, numBits))
    {
      var position := probe % numBits;
      if !HasBit(bits[position / 8], position % 8) {
        assert !BitAt(bits, BitPosition(h, i, numBits));
        return false;
      }
      NextProbe(h, i);
      var next: nat := probe + delta;
      probe := next % U32_MOD;
    }
    r := true;
  }

  lemma FirstProbe(h: u32)
    ensures Probe(h, 0) == h
  {
  }

  lemma NextProbe(h: u32, i: nat)
    ensures Probe(h, i + 1) == (Probe(h, i) + RotateLeft15(h)) % U32_MOD
  {
  }

  lemma NoProbes(h: u32, numBits: nat)
    requires numBits > 0
    ensures forall p :: !Probed(p, h, 0, numBits)
  {
  }

  lemma ProbedOneMore(h: u32, i: nat, numBits: nat)
    requires numBits > 0
    ensures forall p :: Probed(p, h, i + 1, numBits) <==> Probed(p, h, i, numBits) || p == BitPosition(h, i, numBits)
  {
    hide Probe;
    assert Probed(BitPosition(h, i, numBits), h, i + 1, numBits);
  }

  lemma OneBitMore(before: bytes, after: bytes, p: nat)
    requires p < 8 * |before| && after == before[p / 8 := SetBit(before[p / 8], p % 8)]
    ensures forall q :: 0 <= q < 8 * |before| ==> (BitAt(after, q) <==> q == p || BitAt(before, q))
  {
    forall q | 0 <= q < 8 * |before| ensures BitAt(after, q) <==> q == p || BitAt(before, q) {
      if q / 8 == p / 8 {
        WithBitSets(before[p / 8], p % 8, q % 8);
      }
    }
  }

  lemma AllProbed(bits: bytes, numHashes: nat, h: u32)
    requires bits != []
    requires forall p :: 0 <= p < 8 * |bits| && Probed(p, h, numHashes, 8 * |bits|) ==> BitAt(bits, p)
    ensures MayContain(bits, numHashes, h)
  {
    forall i | 0 <= i < numHashes ensures BitAt(bits, BitPosition(h, i, 8 * |bits|)) {
      assert Probed(BitPosition(h, i, 8 * |bits|), h, numHashes, 8 * |bits|);
    }
  }

  /** More bits never make the filter forget a key. */
  lemma MoreBitsKeepKeys(before: bytes, after: bytes, numHashes: nat, h: u32)
    requires before != [] && |after| == |before| && MayContain(before, numHashes, h)
    requires forall p :: 0 <= p < 8 * |before| && BitAt(before, p) ==> BitAt(after, p)
    ensures MayContain(after, numHashes, h)
  {
  }
}
