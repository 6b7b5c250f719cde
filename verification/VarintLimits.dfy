/** Exactly which bytes are read as a varint, and as which number (util/coding.cc, GetVarint32PtrFallback and
    GetVarint64Ptr, and pb_decode_varint of nanopb/pb_decode.c). */
module VarintLimits {
  import opened Basics
  import opened Coding

  /** The first byte without the highest bit is the n-th. */
  ghost predicate Ends(s: seq<Byte>, n: nat) {
    0 < n <= |s| && s[n - 1] < 128 && forall i :: 0 <= i < n - 1 ==> s[i] >= 128
  }

  /** What n septets stand for, lowest first. */
  function Septets(s: seq<Byte>, n: nat): nat
    requires n <= |s|
  {
    if n == 0 then 0 else s[0] % 128 + 128 * Septets(s[1..], n - 1)
  }

  /** Cutting a septet to the width cuts the sum. */
  lemma CutSum(result: nat, d: nat, shift: nat, bits: nat)
    requires shift < bits && result < Pow2(shift)
    ensures (result + Shl(d, shift)) % Pow2(bits) == result + Shl(d, shift) % Pow2(bits)
  {
    ShlIsProduct(d, shift);
    Pow2Adds(shift, bits - shift);
    CutProduct(result, d, Pow2(shift), Pow2(bits - shift));
  }

  lemma CutProduct(result: nat, d: nat, p: nat, q: nat)
    requires p >= 1 && q >= 1 && result < p
    ensures (result + d * p) % (p * q) == result + d * p % (p * q)
  {
    var a, b := d / q, d % q;
    Distributes(a, b, p, q);
    Bounded(b, p, q);
    Remainder(d * p, p * q, a, b * p);
    Remainder(result + d * p, p * q, a, result + b * p);
  }

  lemma Distributes(a: nat, b: nat, p: nat, q: nat)
    ensures (q * a + b) * p == a * (p * q) + b * p
  {
    calc {
      (q * a + b) * p;
      (q * a) * p + b * p;
      a * (p * q) + b * p;
    }
  }

  lemma Bounded(b: nat, p: nat, q: nat)
    requires b < q
    ensures b * p + p <= p * q
  {
    assert (q - b - 1) * p >= 0;
  }

  /** A septet that is not cut leaves room for the next one above it. */
  lemma WholeSeptet(result: nat, d: nat, shift: nat, bits: nat)
    requires shift + 7 <= bits && result < Pow2(shift) && d < 128
    ensures Shl(d, shift) % Pow2(bits) == d * Pow2(shift) && result + d * Pow2(shift) < Pow2(shift + 7)
  {
    ShlIsProduct(d, shift);
    SeptetShift(shift);
    assert d * Pow2(shift) <= 127 * Pow2(shift);
    Pow2Grows(shift + 7, bits);
    Small(d * Pow2(shift), Pow2(bits));
  }

  /** What is read of n more septets. */
  ghost function Reading(s: seq<Byte>, bits: nat, shift: nat, result: nat, n: nat): Parsed<nat>
    requires n <= |s|
  {
    Parsed((result + Septets(s, n) * Pow2(shift)) % Pow2(bits), s[n..])
  }

  lemma OneMoreSeptet(s: seq<Byte>, bits: nat, shift: nat, result: nat, n: nat)
    requires 0 < n <= |s|
    ensures Reading(s, bits, shift, result, n)
      == Reading(s[1..], bits, shift + 7, result + s[0] % 128 * Pow2(shift), n - 1)
  {
    SeptetsShift(s[0] % 128, Septets(s[1..], n - 1), shift);
    assert s[1..][n - 1..] == s[n..];
  }

  lemma LastSeptet(s: seq<Byte>, bits: nat, shift: nat, result: nat)
    requires Ends(s, 1) && shift < bits && result < Pow2(shift)
    ensures ReadVarint(s, bits, shift, result) == Reading(s, bits, shift, result, 1)
  {
    var d := s[0] % 128;
    assert Septets(s, 1) == d + 128 * Septets(s[1..], 0) == d;
    CutSum(result, d, shift, bits);
    ShlIsProduct(d, shift);
  }

  lemma {:induction false} ReadsSeptets(s: seq<Byte>, bits: nat, shift: nat, result: nat, n: nat)
    requires Ends(s, n) && result < Pow2(shift)
    ensures ReadVarint(s, bits, shift, result) ==
            if shift + 7 * (n - 1) < bits then Reading(s, bits, shift, result, n) else Malformed
    decreases n
  {
    if shift < bits {
      if n == 1 {
        LastSeptet(s, bits, shift, result);
      } else if shift + 7 < bits {
        var d := s[0] % 128;
        WholeSeptet(result, d, shift, bits);
        ReadsSeptets(s[1..], bits, shift + 7, result + d * Pow2(shift), n - 1);
        OneMoreSeptet(s, bits, shift, result, n);
      }
    }
  }

  lemma SeptetsShift(d: nat, high: nat, shift: nat)
    ensures d * Pow2(shift) + high * Pow2(shift + 7) == (d + 128 * high) * Pow2(shift)
  {
    SeptetShift(shift);
  }

  /** A varint is read exactly when it ends before its septets run out of the width, at the latest with the one that
      the width cuts; the number is what the septets stand for, modulo the width. */
  lemma VarintReadIff(s: seq<Byte>, bits: nat, n: nat)
    requires Ends(s, n)
    ensures ReadVarint(s, bits, 0, 0) ==
            if 7 * (n - 1) < bits then Parsed(Septets(s, n) % Pow2(bits), s[n..]) else Malformed
  {
    ReadsSeptets(s, bits, 0, 0, n);
  }
}
