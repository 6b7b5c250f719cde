/** The Bloom filter (util/bloom.cc). The hash of a key is any function to 32-bit words. */
module Bloom {
  import opened Basics
  import opened Coding

  type KeyHash = Key -> Word

  /** Rotated right by 17 bits. */
  function Delta(h: Word): Word {
    h / 0x2_0000 + h % 0x2_0000 * 0x8000
  }

  /** The j-th hash value of double hashing, modulo 2^32. */
  function Probe(h: Word, j: nat): Word {
    if j == 0 then h else (Probe(h, j - 1) + Delta(h)) % 0x1_0000_0000
  }

  /** Bit by bit the step between probes is the hash turned right by 17. */
  lemma DeltaRotates(h: Word, i: nat)
    requires i < 32
    ensures Bit(Delta(h), i) <==> Bit(h, (i + 17) % 32)
  {
    ShiftPowers();
    JoinedBits(h / 0x2_0000, h % 0x2_0000, 15, i);
    JoinedBits(h % 0x2_0000, h / 0x2_0000, 17, (i + 17) % 32);
  }

  /** Double hashing: the probes go on in equal steps, modulo 2^32. */
  lemma {:induction false} ProbesAreEquallySpaced(h: Word, j: nat)
    ensures Probe(h, j) == (h + j * Delta(h)) % 0x1_0000_0000
  {
    if j > 0 {
      ProbesAreEquallySpaced(h, j - 1);
      NextStep(h, j, Delta(h), Probe(h, j - 1));
    }
  }

  lemma NextStep(h: nat, j: nat, delta: nat, probe: nat)
    requires j > 0 && probe == (h + (j - 1) * delta) % 0x1_0000_0000
    ensures (probe + delta) % 0x1_0000_0000 == (h + j * delta) % 0x1_0000_0000
  {
    var before := h + (j - 1) * delta;
    assert h + j * delta == before + delta;
  }

  /** The bit that the j-th probe of a key looks at. */
  function BitPos(hash: KeyHash, key: Key, j: nat, bits: nat): (p: nat)
    requires bits > 0
    ensures p < bits
  {
    Probe(hash(key), j) % bits
  }

  predicate IsSet(bitmap: seq<Byte>, p: nat)
    requires p < 8 * |bitmap|
  {
    Bit(bitmap[p / 8], p % 8)
  }

  /** What a filter answers for a key: the last byte holds the number of probes; more than 30 are reserved. */
  predicate Matches(hash: KeyHash, key: Key, filter: seq<Byte>) {
    |filter| >= 2 &&
    var bits, k := 8 * (|filter| - 1), filter[|filter| - 1];
    k > 30 || forall j :: 0 <= j < k ==> IsSet(filter, BitPos(hash, key, j, bits))
  }

  /** One of the first k probes of the key falls on the bit. */
  ghost predicate ProbedBy(hash: KeyHash, key: Key, k: nat, bits: nat, p: nat)
    requires bits > 0
  {
    exists j: nat :: j < k && BitPos(hash, key, j, bits) == p
  }

  /** Some probe of some key falls on the bit. */
  ghost predicate Probed(hash: KeyHash, keys: seq<Key>, k: nat, bits: nat, p: nat)
    requires bits > 0
  {
    exists i :: 0 <= i < |keys| && ProbedBy(hash, keys[i], k, bits, p)
  }

  /** The bits set are the bits probed: none is missing, and none is set for nothing. */
  ghost predicate Records(hash: KeyHash, keys: seq<Key>, k: nat, bitmap: seq<Byte>)
    requires |bitmap| > 0
  {
    forall p :: 0 <= p < 8 * |bitmap| ==> (IsSet(bitmap, p) <==> Probed(hash, keys, k, 8 * |bitmap|, p))
  }

  // ---- one bit of a byte ----

  lemma {:induction false} OrBelow(a: nat, b: nat, n: nat)
    requires a < Pow2(n) && b < Pow2(n)
    ensures Or(a, b) < Pow2(n)
    decreases n
  {
    if a > 0 && b > 0 {
      OrBelow(a / 2, b / 2, n - 1);
    }
  }

  lemma {:induction false} AndOfBit(a: nat, n: nat)
    ensures And(a, Pow2(n)) != 0 <==> Bit(a, n)
    decreases n
  {
    if a == 0 {
      ZeroHasNoBits(n);
    } else if n > 0 {
      assert Pow2(n) / 2 == Pow2(n - 1) && Pow2(n) % 2 == 0;
      AndOfBit(a / 2, n - 1);
    }
  }

  lemma {:induction false} BitBelow(n: nat)
    requires n < 8
    ensures Pow2(n) < 0x100
  {
    Pow2Grows(n, 7);
    assert Pow2(7) == 128;
  }

  function WithBit(byte: Byte, n: nat): (r: Byte)
    requires n < 8
    ensures forall i: nat :: Bit(r, i) <==> Bit(byte, i) || i == n
  {
    BitBelow(n);
    OrBelow(byte, Pow2(n), 8);
    OneBitMore(byte, n);
    Or(byte, Pow2(n))
  }

  lemma OneBitMore(byte: Byte, n: nat)
    ensures Pow2(8) == 0x100
    ensures forall i: nat :: Bit(Or(byte, Pow2(n)), i) <==> Bit(byte, i) || i == n
  {
    forall i: nat ensures Bit(Or(byte, Pow2(n)), i) <==> Bit(byte, i) || i == n {
      OrBits(byte, Pow2(n), i);
      PowerHasOneBit(n, i);
    }
  }

  function SetBit(bitmap: seq<Byte>, p: nat): (r: seq<Byte>)
    requires p < 8 * |bitmap|
    ensures |r| == |bitmap|
    ensures forall q :: 0 <= q < 8 * |bitmap| ==> (IsSet(r, q) <==> IsSet(bitmap, q) || q == p)
  {
    bitmap[p / 8 := WithBit(bitmap[p / 8], p % 8)]
  }

  // ---- the policy ----

  lemma NothingSet(hash: KeyHash, keys: seq<Key>, k: nat, bitmap: seq<Byte>)
    requires |bitmap| > 0 && forall i :: 0 <= i < |bitmap| ==> bitmap[i] == 0
    ensures Records(hash, keys[..0], k, bitmap)
  {
    forall p | 0 <= p < 8 * |bitmap| ensures !IsSet(bitmap, p) {
      ZeroHasNoBits(p % 8);
    }
  }

  lemma OneMoreKey(hash: KeyHash, keys: seq<Key>, i: nat, k: nat, bits: nat, p: nat)
    requires i < |keys| && bits > 0
    ensures Probed(hash, keys[..i + 1], k, bits, p) <==>
            Probed(hash, keys[..i], k, bits, p) || ProbedBy(hash, keys[i], k, bits, p)
  {
    var less, more := keys[..i], keys[..i + 1];
    forall m | 0 <= m < i ensures less[m] == more[m] {
    }
    assert more[i] == keys[i];
  }

  lemma OneMoreProbe(hash: KeyHash, key: Key, j: nat, bits: nat, p: nat)
    requires bits > 0
    ensures ProbedBy(hash, key, j + 1, bits, p) <==>
            ProbedBy(hash, key, j, bits, p) || BitPos(hash, key, j, bits) == p
  {
  }

  /** Sets the bit of every probe of keys[i]. */
  method AddKey(hash: KeyHash, keys: seq<Key>, i: nat, k: nat, bitmap: seq<Byte>) returns (r: seq<Byte>)
    requires i < |keys| && |bitmap| > 0
    requires Records(hash, keys[..i], k, bitmap)
    ensures |r| == |bitmap|
    ensures Records(hash, keys[..i + 1], k, r)
  {
    r := bitmap;
    var bits := 8 * |bitmap|;
    var h := hash(keys[i]);
    var delta := Delta(h);
    for j := 0 to k
      invariant |r| == |bitmap| && h == Probe(hash(keys[i]), j)
      invariant forall p :: 0 <= p < bits ==>
        (IsSet(r, p) <==> IsSet(bitmap, p) || ProbedBy(hash, keys[i], j, bits, p))
    {
      var was := r;
      var bitpos := h % bits;
      r := SetBit(r, bitpos);
      h := (h + delta) % 0x1_0000_0000;
      forall p | 0 <= p < bits
        ensures IsSet(r, p) <==> IsSet(bitmap, p) || ProbedBy(hash, keys[i], j + 1, bits, p)
      {
        OneMoreProbe(hash, keys[i], j, bits, p);
        assert IsSet(r, p) <==> IsSet(was, p) || p == bitpos;
      }
    }
    forall p | 0 <= p < bits ensures IsSet(r, p) <==> Probed(hash, keys[..i + 1], k, bits, p) {
      OneMoreKey(hash, keys, i, k, bits, p);
    }
  }

  lemma SameBit(bitmap: seq<Byte>, k: Byte, p: nat)
    requires p < 8 * |bitmap|
    ensures IsSet(bitmap + [k], p) <==> IsSet(bitmap, p)
  {
    assert (bitmap + [k])[p / 8] == bitmap[p / 8];
  }

  /** A filter that records the keys matches them all. */
  lemma AllMatch(hash: KeyHash, keys: seq<Key>, k: nat, bitmap: seq<Byte>)
    requires k <= 30 && |bitmap| > 0 && Records(hash, keys, k, bitmap)
    ensures forall i :: 0 <= i < |keys| ==> Matches(hash, keys[i], bitmap + [k])
  {
    var bits := 8 * |bitmap|;
    forall i, j | 0 <= i < |keys| && 0 <= j < k
      ensures IsSet(bitmap + [k], BitPos(hash, keys[i], j, bits))
    {
      var p := BitPos(hash, keys[i], j, bits);
      assert ProbedBy(hash, keys[i], k, bits, p);
      SameBit(bitmap, k, p);
    }
  }

  class BloomFilterPolicy {
    const bitsPerKey: nat
    const k: nat
    const hash: KeyHash

    ghost predicate Valid() {
      1 <= k <= 30
    }

    constructor (bitsPerKey: nat, hash: KeyHash)
      ensures Valid() && this.bitsPerKey == bitsPerKey && this.hash == hash
    {
      this.bitsPerKey, this.hash := bitsPerKey, hash;
      var probes := bitsPerKey * 69 / 100;
      k := if probes < 1 then 1 else if probes > 30 then 30 else probes;
    }

    /** The whole bytes for so many keys, 64 bits at least. */
    function FilterBytes(n: nat): (bytes: nat)
      ensures bytes >= 8 && 8 * bytes >= n * bitsPerKey
      ensures n * bitsPerKey >= 64 ==> 8 * bytes < n * bitsPerKey + 8
    {
      var bits := if n * bitsPerKey < 64 then 64 else n * bitsPerKey;
      (bits + 7) / 8
    }

    /** Appends a filter with exactly the bits that the probes of the keys fall on, so every key matches it. */
    method CreateFilter(keys: seq<Key>, dst: seq<Byte>) returns (r: seq<Byte>, ghost filter: seq<Byte>)
      requires Valid()
      ensures r == dst + filter
      ensures |filter| == FilterBytes(|keys|) + 1 && filter[|filter| - 1] == k
      ensures Records(hash, keys, k, filter[..|filter| - 1])
      ensures forall i :: 0 <= i < |keys| ==> Matches(hash, keys[i], filter)
    {
      var bytes := FilterBytes(|keys|);
      var bitmap: seq<Byte> := seq(bytes, _ => 0);
      NothingSet(hash, keys, k, bitmap);
      for i := 0 to |keys|
        invariant |bitmap| == bytes
        invariant Records(hash, keys[..i], k, bitmap)
      {
        bitmap := AddKey(hash, keys, i, k, bitmap);
      }
      assert keys[..|keys|] == keys;
      filter := bitmap + [k];
      r := dst + bitmap + [k];
      Associate(dst, bitmap, [k]);
      assert filter[..|filter| - 1] == bitmap;
      AllMatch(hash, keys, k, bitmap);
    }

    /** Stops at the first probed bit that is clear. */
    method KeyMayMatch(key: Key, filter: seq<Byte>) returns (b: bool)
      ensures b == Matches(hash, key, filter)
    {
      if |filter| < 2 {
        return false;
      }
      var bits, probes := 8 * (|filter| - 1), filter[|filter| - 1];
      if probes > 30 {
        return true;
      }
      var h := hash(key);
      var delta := Delta(h);
      for j := 0 to probes
        invariant h == Probe(hash(key), j)
        invariant forall i :: 0 <= i < j ==> IsSet(filter, BitPos(hash, key, i, bits))
      {
        var bitpos := h % bits;
        AndOfBit(filter[bitpos / 8], bitpos % 8);
        if And(filter[bitpos / 8], Pow2(bitpos % 8)) == 0 {
          assert !IsSet(filter, BitPos(hash, key, j, bits));
          return false;
        }
        h := (h + delta) % 0x1_0000_0000;
      }
      b := true;
    }
  }
}
