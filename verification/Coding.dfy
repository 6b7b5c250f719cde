/** Integers as bytes (leveldb-library/util/coding.cc; the same encodings in nanopb/pb_encode.c and
    nanopb/pb_decode.c): little-endian fixed widths and base 128 varints. */
module Coding {
  import opened Basics

  /** Keys in files are byte strings. */
  type Key = seq<Byte>

  datatype Parsed<+T> = Parsed(value: T, rest: seq<Byte>) | Malformed

  // ---- powers of two ----

  function Pow2(n: nat): (p: nat)
    ensures p >= 1
  {
    if n == 0 then 1 else 2 * Pow2(n - 1)
  }

  lemma {:induction false} Pow2Adds(a: nat, b: nat)
    ensures Pow2(a + b) == Pow2(a) * Pow2(b)
  {
    if b > 0 {
      Pow2Adds(a, b - 1);
      calc {
        Pow2(a + b);
        2 * Pow2(a + b - 1);
        2 * (Pow2(a) * Pow2(b - 1));
        Pow2(a) * (2 * Pow2(b - 1));
        Pow2(a) * Pow2(b);
      }
    }
  }

  lemma SeptetShift(n: nat)
    ensures Pow2(n + 7) == 128 * Pow2(n)
  {
    Pow2Adds(n, 7);
    assert Pow2(7) == 128;
  }

  function Shl(n: nat, k: nat): nat {
    if k == 0 then n else 2 * Shl(n, k - 1)
  }

  lemma {:induction false} Pow2Grows(a: nat, b: nat)
    requires a <= b
    ensures Pow2(a) <= Pow2(b)
  {
    if a < b {
      Pow2Grows(a, b - 1);
    }
  }

  lemma WordPowers()
    ensures Pow2(7) == 0x80 && Pow2(28) == 0x1000_0000 && Pow2(31) == 0x8000_0000 && Pow2(32) == 0x1_0000_0000
    ensures Pow2(35) == 0x8_0000_0000 && Pow2(63) == 0x8000_0000_0000_0000 && Pow2(64) == 0x1_0000_0000_0000_0000
  {
    Pow2Adds(7, 7);
    Pow2Adds(14, 14);
    Pow2Adds(28, 3);
    Pow2Adds(31, 1);
    Pow2Adds(28, 7);
    Pow2Adds(31, 32);
    Pow2Adds(32, 32);
    assert Pow2(1) == 2 && Pow2(3) == 8 && Pow2(7) == 128;
  }

  // ---- bits ----

  function Or(a: nat, b: nat): nat {
    if a == 0 then b else if b == 0 then a
    else 2 * Or(a / 2, b / 2) + if a % 2 == 1 || b % 2 == 1 then 1 else 0
  }

  predicate Bit(w: nat, i: nat)
    decreases i
  {
    if i == 0 then w % 2 == 1 else Bit(w / 2, i - 1)
  }

  lemma {:induction false} ZeroHasNoBits(i: nat)
    ensures !Bit(0, i)
  {
    if i > 0 {
      ZeroHasNoBits(i - 1);
    }
  }

  lemma {:induction false} OrBits(a: nat, b: nat, i: nat)
    ensures Bit(Or(a, b), i) <==> Bit(a, i) || Bit(b, i)
    decreases i
  {
    if a == 0 || b == 0 {
      ZeroHasNoBits(i);
    } else {
      Halves(Or(a / 2, b / 2), if a % 2 == 1 || b % 2 == 1 then 1 else 0);
      if i > 0 {
        OrBits(a / 2, b / 2, i - 1);
      }
    }
  }

  lemma Halves(h: nat, bit: nat)
    requires bit < 2
    ensures (2 * h + bit) / 2 == h && (2 * h + bit) % 2 == bit
  {
  }

  lemma {:induction false} PowerHasOneBit(n: nat, i: nat)
    ensures Bit(Pow2(n), i) <==> i == n
    decreases n
  {
    if n == 0 {
      if i > 0 {
        ZeroHasNoBits(i - 1);
      }
    } else if i > 0 {
      assert Pow2(n) / 2 == Pow2(n - 1);
      PowerHasOneBit(n - 1, i - 1);
    }
  }

  /** Bits above the ones of `a` are added, not merged. */
  lemma {:induction false} OrOfHigherBits(a: nat, c: nat, n: nat)
    requires a < Pow2(n)
    ensures Or(a, Shl(c, n)) == a + Shl(c, n)
    decreases n
  {
    if n > 0 {
      OrOfHigherBits(a / 2, c, n - 1);
      Halves(Shl(c, n - 1), 0);
    }
  }

  /** The bits of a number put together from `n` low bits and the others. */
  lemma {:induction false} JoinedBits(low: nat, high: nat, n: nat, i: nat)
    requires low < Pow2(n)
    ensures Bit(low + high * Pow2(n), i) <==> if i < n then Bit(low, i) else Bit(high, i - n)
    decreases n
  {
    if n > 0 {
      var half := low / 2 + high * Pow2(n - 1);
      assert low + high * Pow2(n) == 2 * half + low % 2;
      Halves(half, low % 2);
      if i > 0 {
        JoinedBits(low / 2, high, n - 1, i - 1);
      }
    }
  }

  lemma ShiftPowers()
    ensures Pow2(15) == 0x8000 && Pow2(17) == 0x2_0000
  {
    Pow2Adds(7, 8);
    Pow2Adds(15, 2);
    assert Pow2(7) == 0x80 && Pow2(8) == 0x100 && Pow2(2) == 4;
  }

  lemma {:induction false} OnesBelow(n: nat, i: nat)
    ensures Bit(Pow2(n) - 1, i) <==> i < n
    decreases n
  {
    if n == 0 {
      ZeroHasNoBits(i);
    } else {
      assert (Pow2(n) - 1) / 2 == Pow2(n - 1) - 1 && (Pow2(n) - 1) % 2 == 1;
      if i > 0 {
        OnesBelow(n - 1, i - 1);
      }
    }
  }

  lemma {:induction false} BitsDecide(a: nat, b: nat)
    requires forall i: nat :: Bit(a, i) <==> Bit(b, i)
    ensures a == b
    decreases a + b
  {
    assert Bit(a, 0) <==> Bit(b, 0);
    if a > 0 || b > 0 {
      forall i: nat ensures Bit(a / 2, i) <==> Bit(b / 2, i) {
        assert Bit(a, i + 1) <==> Bit(b, i + 1);
      }
      BitsDecide(a / 2, b / 2);
    }
  }

  lemma Product(a: nat, b: nat)
    ensures a * b >= 0 && (a >= 1 ==> a * b >= b)
  {
  }

  lemma Remainder(n: int, m: nat, q: int, r: nat)
    requires r < m && n == q * m + r
    ensures n % m == r
  {
    var q', r' := n / m, n % m;
    assert n == m * q' + r';
    assert (q - q') * m == r' - r;
    if q > q' {
      Product(q - q', m);
    } else if q < q' {
      assert (q - q') * m == 0 - (q' - q) * m;
      Product(q' - q, m);
    }
  }

  function And(a: nat, b: nat): nat {
    if a == 0 || b == 0 then 0 else 2 * And(a / 2, b / 2) + if a % 2 == 1 && b % 2 == 1 then 1 else 0
  }

  predicate PowerOfTwo(n: nat) {
    n == 1 || (n > 1 && n % 2 == 0 && PowerOfTwo(n / 2))
  }

  lemma DoubledQuotient(q: nat, m: nat, r: nat, bit: nat)
    ensures 2 * (q * m + r) + bit == q * (2 * m) + (2 * r + bit)
  {
    assert q * (2 * m) == 2 * (q * m);
  }

  lemma HalfRemainder(h: nat, m: nat)
    requires m >= 1
    ensures h % (2 * m) == 2 * (h / 2 % m) + h % 2
  {
    var half, bit := h / 2, h % 2;
    var q, r := half / m, half % m;
    assert half == m * q + r;
    DoubledQuotient(q, m, r, bit);
    Remainder(h, 2 * m, q, 2 * r + bit);
  }

  /** Masking with a power of two less one. */
  lemma {:induction false} MaskIsRemainder(h: nat, n: nat)
    requires PowerOfTwo(n)
    ensures And(h, n - 1) == h % n
    decreases n
  {
    if n > 1 {
      var m := n / 2;
      OddMask(n, m);
      MaskIsRemainder(h / 2, m);
      HalfRemainder(h, m);
    }
  }

  lemma OddMask(n: nat, m: nat)
    requires n == 2 * m && m >= 1
    ensures (n - 1) / 2 == m - 1 && (n - 1) % 2 == 1
  {
  }

  // ---- fixed widths ----

  function Fixed32(w: Word): (bytes: seq<Byte>)
    ensures |bytes| == 4
  {
    [w % 0x100, w / 0x100 % 0x100, w / 0x1_0000 % 0x100, w / 0x100_0000]
  }

  function DecodeFixed32(bytes: seq<Byte>): (w: Word)
    requires |bytes| >= 4
  {
    bytes[0] as int + bytes[1] as int * 0x100 + bytes[2] as int * 0x1_0000 + bytes[3] as int * 0x100_0000
  }

  lemma Digits(w: Word)
    ensures w == w % 0x100 + w / 0x100 % 0x100 * 0x100 + w / 0x1_0000 % 0x100 * 0x1_0000 + w / 0x100_0000 * 0x100_0000
  {
    var a := w / 0x100;
    var b := a / 0x100;
    assert b == w / 0x1_0000 && b / 0x100 == w / 0x100_0000;
    assert w == a * 0x100 + w % 0x100 && a == b * 0x100 + a % 0x100 && b == b / 0x100 * 0x100 + b % 0x100;
  }

  lemma Fixed32RoundTrip(w: Word, rest: seq<Byte>)
    ensures DecodeFixed32(Fixed32(w) + rest) == w
  {
    var all := Fixed32(w) + rest;
    Digits(w);
    assert all[0] == Fixed32(w)[0] && all[1] == Fixed32(w)[1] && all[2] == Fixed32(w)[2] && all[3] == Fixed32(w)[3];
  }

  lemma Fixed32OfDecoded(bytes: seq<Byte>)
    requires |bytes| >= 4
    ensures Fixed32(DecodeFixed32(bytes)) == bytes[..4]
  {
    var w := DecodeFixed32(bytes);
    assert w / 0x100 == bytes[1] as int + bytes[2] as int * 0x100 + bytes[3] as int * 0x1_0000;
    assert w / 0x1_0000 == bytes[2] as int + bytes[3] as int * 0x100;
    assert w / 0x100_0000 == bytes[3] as int;
  }

  function Fixed64(v: nat): (bytes: seq<Byte>)
    requires v < 0x1_0000_0000_0000_0000
    ensures |bytes| == 8
  {
    Fixed32(v % 0x1_0000_0000) + Fixed32(v / 0x1_0000_0000)
  }

  function DecodeFixed64(bytes: seq<Byte>): (v: nat)
    requires |bytes| >= 8
    ensures v < 0x1_0000_0000_0000_0000
  {
    DecodeFixed32(bytes) + DecodeFixed32(bytes[4..]) * 0x1_0000_0000
  }

  lemma Fixed64RoundTrip(v: nat, rest: seq<Byte>)
    requires v < 0x1_0000_0000_0000_0000
    ensures DecodeFixed64(Fixed64(v) + rest) == v
  {
    var low, high := v % 0x1_0000_0000, v / 0x1_0000_0000;
    Fixed32RoundTrip(low, Fixed32(high) + rest);
    Fixed32RoundTrip(high, rest);
    assert Fixed64(v) + rest == Fixed32(low) + (Fixed32(high) + rest);
    assert (Fixed64(v) + rest)[4..] == Fixed32(high) + rest;
  }

  function Fixed32s(ns: seq<Word>): (bytes: seq<Byte>)
    ensures |bytes| == 4 * |ns|
  {
    if ns == [] then [] else Fixed32s(ns[..|ns| - 1]) + Fixed32(ns[|ns| - 1])
  }

  lemma {:induction false} Fixed32At(ns: seq<Word>, r: nat, rest: seq<Byte>)
    requires r < |ns|
    ensures DecodeFixed32((Fixed32s(ns) + rest)[4 * r..]) == ns[r]
  {
    var init, last := ns[..|ns| - 1], Fixed32(ns[|ns| - 1]);
    if r == |ns| - 1 {
      assert (Fixed32s(ns) + rest)[4 * r..] == last + rest;
      Fixed32RoundTrip(ns[r], rest);
    } else {
      Fixed32At(init, r, last + rest);
      Associate(Fixed32s(init), last, rest);
    }
  }

  method PutFixed32s(dst: seq<Byte>, ns: seq<Word>) returns (r: seq<Byte>)
    ensures r == dst + Fixed32s(ns)
  {
    r := dst;
    for i := 0 to |ns|
      invariant r == dst + Fixed32s(ns[..i])
    {
      NextWord(dst, ns, i);
      r := r + Fixed32(ns[i]);
    }
    assert ns[..|ns|] == ns;
  }

  lemma NextWord(dst: seq<Byte>, ns: seq<Word>, i: nat)
    requires i < |ns|
    ensures dst + Fixed32s(ns[..i]) + Fixed32(ns[i]) == dst + Fixed32s(ns[..i + 1])
  {
    assert ns[..i + 1][..i] == ns[..i];
    Associate(dst, Fixed32s(ns[..i]), Fixed32(ns[i]));
  }

  // ---- varints ----

  function Varint(v: nat): (bytes: seq<Byte>)
    ensures bytes != []
  {
    if v < 128 then [v] else [v % 128 + 128] + Varint(v / 128)
  }

  lemma {:induction false} VarintLength(v: nat, k: nat)
    requires k >= 1 && v < Pow2(7 * k)
    ensures |Varint(v)| <= k
  {
    if v >= 128 {
      assert Pow2(7) == 128;
      SeptetShift(7 * (k - 1));
      VarintLength(v / 128, k - 1);
    }
  }

  /** Reads septets, lowest first, into a word of so many bits; `result` holds the septets below `shift`, so
      that adding the next one sets bits that are still clear. */
  function ReadVarint(s: seq<Byte>, bits: nat, shift: nat, result: nat): (r: Parsed<nat>)
    ensures r.Parsed? ==> |r.rest| < |s|
  {
    if shift >= bits || |s| == 0 then Malformed
    else
      var next := result + Shl(s[0] % 128, shift) % Pow2(bits);
      if s[0] >= 128 then ReadVarint(s[1..], bits, shift + 7, next) else Parsed(next, s[1..])
  }

  /** A varint without a last byte is refused. */
  lemma {:induction false} EndlessIsRefused(s: seq<Byte>, bits: nat, shift: nat, result: nat)
    requires forall i :: 0 <= i < |s| ==> s[i] >= 128
    ensures ReadVarint(s, bits, shift, result) == Malformed
  {
    if shift < bits && s != [] {
      var next := result + Shl(s[0] % 128, shift) % Pow2(bits);
      EndlessIsRefused(s[1..], bits, shift + 7, next);
    }
  }

  lemma {:induction false} ShlAdds(a: nat, b: nat, k: nat)
    ensures Shl(a, k) + Shl(b, k) == Shl(a + b, k)
  {
    if k > 0 {
      ShlAdds(a, b, k - 1);
    }
  }

  lemma {:induction false} ShlIsProduct(n: nat, k: nat)
    ensures Shl(n, k) == n * Pow2(k)
  {
    if k > 0 {
      ShlIsProduct(n, k - 1);
    }
  }

  lemma {:induction false} ShlSeven(n: nat, k: nat)
    ensures Shl(n, k + 7) == Shl(128 * n, k)
  {
    if k > 0 {
      ShlSeven(n, k - 1);
    } else {
      assert Shl(n, 7) == 2 * Shl(n, 6) == 4 * Shl(n, 5) == 8 * Shl(n, 4) == 16 * Shl(n, 3) == 32 * Shl(n, 2);
      assert Shl(n, 2) == 2 * Shl(n, 1) == 4 * n;
    }
  }

  lemma {:induction false} ShlGrows(n: nat, k: nat)
    requires n >= 1
    ensures Shl(n, k) >= Pow2(k)
  {
    if k > 0 {
      ShlGrows(n, k - 1);
    }
  }

  lemma SeptetSplits(v: nat, shift: nat)
    ensures Shl(v % 128, shift) + Shl(v / 128, shift + 7) == Shl(v, shift)
  {
    ShlSeven(v / 128, shift);
    ShlAdds(v % 128, 128 * (v / 128), shift);
  }

  lemma SeptetFits(v: nat, shift: nat, bits: nat)
    requires Shl(v, shift) < Pow2(bits)
    ensures Shl(v % 128, shift) % Pow2(bits) == Shl(v % 128, shift)
    ensures Shl(v % 128, shift) + Shl(v / 128, shift + 7) == Shl(v, shift)
    ensures Shl(v / 128, shift + 7) < Pow2(bits)
    ensures v >= 128 ==> shift + 7 < bits
  {
    SeptetSplits(v, shift);
    Small(Shl(v % 128, shift), Pow2(bits));
    if v >= 128 && shift + 7 >= bits {
      Pow2Grows(bits, shift + 7);
      ShlGrows(v / 128, shift + 7);
      assert false;
    }
  }

  lemma Small(a: nat, b: nat)
    requires a < b
    ensures a % b == a
  {
  }

  function Digit(v: nat): Byte {
    if v < 128 then v else v % 128 + 128
  }

  lemma LowSeptet(v: nat)
    ensures Digit(v) % 128 == v % 128 && (Digit(v) >= 128 <==> v >= 128)
  {
  }

  lemma Associate(a: seq<Byte>, b: seq<Byte>, c: seq<Byte>)
    ensures (a + b) + c == a + (b + c)
  {
  }

  lemma VarintUnfolds(v: nat, rest: seq<Byte>)
    ensures Varint(v) + rest == [Digit(v)] + if v < 128 then rest else Varint(v / 128) + rest
  {
    if v >= 128 {
      Associate([Digit(v)], Varint(v / 128), rest);
    }
  }

  lemma ReadDigit(v: nat, tail: seq<Byte>, bits: nat, shift: nat, result: nat) returns (next: nat)
    requires shift < bits && Shl(v, shift) < Pow2(bits)
    ensures v < 128 ==>
      ReadVarint([Digit(v)] + tail, bits, shift, result) == Parsed(next, tail) && next == result + Shl(v, shift)
    ensures v >= 128 ==> ReadVarint([Digit(v)] + tail, bits, shift, result) == ReadVarint(tail, bits, shift + 7, next)
    ensures next + Shl(v / 128, shift + 7) == result + Shl(v, shift)
    ensures Shl(v / 128, shift + 7) < Pow2(bits)
    ensures v >= 128 ==> shift + 7 < bits
  {
    SeptetFits(v, shift, bits);
    LowSeptet(v);
    next := result + Shl(v % 128, shift);
    assert ([Digit(v)] + tail)[1..] == tail;
  }

  /** A varint of at most so many bits reads back, and the reader stops at its last byte. */
  lemma {:induction false} VarintReadsBack(v: nat, bits: nat, shift: nat, result: nat, rest: seq<Byte>)
    requires shift < bits && Shl(v, shift) < Pow2(bits)
    ensures ReadVarint(Varint(v) + rest, bits, shift, result) == Parsed(result + Shl(v, shift), rest)
    decreases v
  {
    VarintUnfolds(v, rest);
    if v < 128 {
      var next := ReadDigit(v, rest, bits, shift, result);
    } else {
      var tail := Varint(v / 128) + rest;
      var next := ReadDigit(v, tail, bits, shift, result);
      VarintReadsBack(v / 128, bits, shift + 7, next, rest);
    }
  }

  lemma Varint64ReadsBack(v: nat, rest: seq<Byte>)
    requires v < 0x1_0000_0000_0000_0000
    ensures ReadVarint(Varint(v) + rest, 64, 0, 0) == Parsed(v, rest)
  {
    assert Pow2(64) == 0x1_0000_0000_0000_0000 by {
      WordPowers();
    }
    VarintReadsBack(v, 64, 0, 0, rest);
  }

  lemma Varint32ReadsBack(v: Word, rest: seq<Byte>)
    ensures ReadVarint(Varint(v) + rest, 32, 0, 0) == Parsed(v as nat, rest)
  {
    assert Pow2(32) == 0x1_0000_0000 by {
      WordPowers();
    }
    VarintReadsBack(v, 32, 0, 0, rest);
  }

  /** PutVarint64: septets with the top bit set while more follow. */
  method PutVarint64(dst: seq<Byte>, value: nat) returns (r: seq<Byte>)
    ensures r == dst + Varint(value)
  {
    r := dst;
    var v := value;
    while v >= 128
      invariant r + Varint(v) == dst + Varint(value)
    {
      Associate(r, [v % 128 + 128], Varint(v / 128));
      r := r + [v % 128 + 128];
      v := v / 128;
    }
    r := r + [v];
  }

  /** PutVarint32, unrolled. */
  method PutVarint32(dst: seq<Byte>, v: Word) returns (r: seq<Byte>)
    ensures r == dst + Varint(v)
  {
    var b0: nat, b1: nat, b2: nat := v % 128 + 128, v / 128 % 128 + 128, v / 128 / 128 % 128 + 128;
    if v < 0x80 {
      r := dst + [v];
    } else if v < 0x4000 {
      r := dst + [b0, v / 128];
      assert Varint(v / 128) == [v / 128];
    } else if v < 0x20_0000 {
      r := dst + [b0, b1, v / 128 / 128];
      assert Varint(v / 128) == [b1] + Varint(v / 128 / 128) == [b1, v / 128 / 128];
    } else if v < 0x1000_0000 {
      r := dst + [b0, b1, b2, v / 128 / 128 / 128];
      assert Varint(v / 128 / 128) == [b2] + Varint(v / 128 / 128 / 128) == [b2, v / 128 / 128 / 128];
      assert Varint(v / 128) == [b1] + Varint(v / 128 / 128);
    } else {
      var b3: nat := v / 128 / 128 / 128 % 128 + 128;
      r := dst + [b0, b1, b2, b3, v / 128 / 128 / 128 / 128];
      assert Varint(v / 128 / 128 / 128) == [b3] + Varint(v / 128 / 128 / 128 / 128) == [b3, v / 128 / 128 / 128 / 128];
      assert Varint(v / 128 / 128) == [b2] + Varint(v / 128 / 128 / 128);
      assert Varint(v / 128) == [b1] + Varint(v / 128 / 128);
    }
  }

  /** GetVarint32Ptr and GetVarint64Ptr, for a width of 32 or 64 bits. */
  method GetVarint(s: seq<Byte>, bits: nat) returns (r: Parsed<nat>)
    ensures r == ReadVarint(s, bits, 0, 0)
  {
    var shift: nat, result: nat, p: nat := 0, 0, 0;
    while shift < bits && p < |s|
      invariant p <= |s| && ReadVarint(s, bits, 0, 0) == ReadVarint(s[p..], bits, shift, result)
      decreases |s| - p
    {
      var byte := s[p];
      assert s[p..][1..] == s[p + 1..];
      p := p + 1;
      result := result + Shl(byte % 128, shift) % Pow2(bits);
      if byte < 128 {
        return Parsed(result, s[p..]);
      }
      shift := shift + 7;
    }
    return Malformed;
  }
}
