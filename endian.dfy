/** src/endian.c: the 64-bit big-endian byte layout used on the wire, and the
    host-order conversions htobe64 / betoh64 built on it. */
module Endian {
  import opened Types

  function Pow256(n: nat): (r: nat)
    ensures r > 0
  {
    if n == 0 then 1 else 256 * Pow256(n - 1)
  }

  /** The n low-order bytes of x, most significant first. */
  function BigEndian(x: nat, n: nat): (r: seq<byte>)
    ensures |r| == n
  {
    if n == 0 then [] else BigEndian(x / 256, n - 1) + [x % 256]
  }

  /** The number whose big-endian bytes are b. */
  function FromBigEndian(b: seq<byte>): nat
  {
    if |b| == 0 then 0 else FromBigEndian(b[..|b| - 1]) * 256 + b[|b| - 1]
  }

  // ---- division facts used by the proofs below ----

  lemma MulAtLeast(d: int, k: int)
    requires d > 0 && k >= 1
    ensures d * k >= d
  {
  }

  lemma DivModUnique(x: int, d: int, q: int, r: int)
    requires d > 0 && 0 <= r < d && x == d * q + r
    ensures x / d == q && x % d == r
  {
    var q', r' := x / d, x % d;
    assert d * q' + r' == d * q + r;
    if q' < q {
      assert d * (q - q') == d * q - d * q';
      MulAtLeast(d, q - q');
    } else if q' > q {
      assert d * (q' - q) == d * q' - d * q;
      MulAtLeast(d, q' - q);
    }
  }

  /** Dropping the low byte, then taking p-th remainders, splits x % (256 * p). */
  lemma DivModSplit(x: nat, p: nat)
    requires p > 0
    ensures (x / 256) / p == x / (256 * p)
    ensures ((x / 256) % p) * 256 + x % 256 == x % (256 * p)
  {
    var q, r := x / 256, x % 256;
    var q2, r2 := q / p, q % p;
    assert q == p * q2 + r2;
    assert x == 256 * q + r;
    assert x == (256 * p) * q2 + (256 * r2 + r) by {
      assert 256 * q == 256 * (p * q2) + 256 * r2;
      assert 256 * (p * q2) == (256 * p) * q2;
    }
    assert 256 * r2 + r < 256 * p by {
      assert r2 <= p - 1;
      assert 256 * r2 <= 256 * (p - 1);
    }
    DivModUnique(x, 256 * p, q2, 256 * r2 + r);
  }

  // ---- the encoding and its inverse ----

  lemma {:induction false} FromBigEndianBound(b: seq<byte>)
    ensures FromBigEndian(b) < Pow256(|b|)
  {
    if |b| > 0 {
      var init := b[..|b| - 1];
      FromBigEndianBound(init);
      assert FromBigEndian(init) <= Pow256(|init|) - 1;
      assert FromBigEndian(init) * 256 <= (Pow256(|init|) - 1) * 256;
    }
  }

  /** Decoding n encoded bytes gives back x modulo 256^n. */
  lemma {:induction false} FromBigEndianOfBigEndian(x: nat, n: nat)
    ensures FromBigEndian(BigEndian(x, n)) == x % Pow256(n)
  {
    if n > 0 {
      var b := BigEndian(x, n);
      assert b[..n - 1] == BigEndian(x / 256, n - 1);
      assert b[n - 1] == x % 256;
      FromBigEndianOfBigEndian(x / 256, n - 1);
      DivModSplit(x, Pow256(n - 1));
    }
  }

  /** Encoding a decoded byte sequence gives back the same bytes. */
  lemma {:induction false} BigEndianOfFromBigEndian(b: seq<byte>)
    ensures BigEndian(FromBigEndian(b), |b|) == b
  {
    if |b| > 0 {
      var init, last := b[..|b| - 1], b[|b| - 1];
      var v := FromBigEndian(init);
      DivModUnique(v * 256 + last, 256, v, last);
      BigEndianOfFromBigEndian(init);
      assert init + [last] == b;
    }
  }

  /** Byte i of the n-byte encoding is (x >> 8 * (n - 1 - i)) & 0xff. */
  lemma {:induction false} BigEndianByte(x: nat, n: nat, i: nat)
    requires i < n
    ensures BigEndian(x, n)[i] == (x / Pow256(n - 1 - i)) % 256
  {
    if i < n - 1 {
      BigEndianByte(x / 256, n - 1, i);
      DivModSplit(x, Pow256(n - 2 - i));
    }
  }

  // ---- 64-bit words, as htobe64 lays them out ----

  /** sizeof(uint64_t). */
  const WORD_LEN: nat := 8

  /** The 8 bytes htobe64 stores for x, most significant first. */
  function Encode64(x: u64): (r: seq<byte>)
    ensures |r| == 8
  {
    BigEndian(x, WORD_LEN)
  }

  /** Byte i of htobe64(x) is x >> (56 - 8 * i), truncated to a byte. */
  lemma Encode64Layout(x: u64)
    ensures forall i :: 0 <= i < 8 ==> Encode64(x)[i] == (x / Pow256(7 - i)) % 256
  {
    forall i | 0 <= i < 8 ensures Encode64(x)[i] == (x / Pow256(7 - i)) % 256 {
      BigEndianByte(x, 8, i);
    }
  }

  /** The value of 8 big-endian bytes. */
  function Decode64(b: seq<byte>): u64
    requires |b| == 8
  {
    FromBigEndianBound(b);
    FromBigEndian(b)
  }

  /** Every 8 bytes are the encoding of the value they decode to. */
  lemma Encode64OfDecode64(b: seq<byte>)
    requires |b| == 8
    ensures Encode64(Decode64(b)) == b
  {
    BigEndianOfFromBigEndian(b);
  }

  lemma Decode64OfEncode64(x: u64)
    ensures Decode64(Encode64(x)) == x
  {
    FromBigEndianOfBigEndian(x, 8);
    assert Pow256(8) == TWO_TO_64;
  }

  /** The same 8 bytes encode only one value. */
  lemma Encode64Injective(x: u64, y: u64)
    requires Encode64(x) == Encode64(y)
    ensures x == y
  {
    Decode64OfEncode64(x);
    Decode64OfEncode64(y);
  }

  /** The test vector of tests/test_endian.c. */
  lemma Encode64TestVector()
    ensures Encode64(0x0123456789abcdef) == [0x01, 0x23, 0x45, 0x67, 0x89, 0xab, 0xcd, 0xef]
    ensures Decode64([0x01, 0x23, 0x45, 0x67, 0x89, 0xab, 0xcd, 0xef]) == 0x0123456789abcdef
  {
    var x, b := 0x0123456789abcdef, [0x01, 0x23, 0x45, 0x67, 0x89, 0xab, 0xcd, 0xef];
    Encode64Layout(x);
    assert Pow256(7) == 0x100_0000_0000_0000 && Pow256(6) == 0x1_0000_0000_0000;
    assert Pow256(5) == 0x100_0000_0000 && Pow256(4) == 0x1_0000_0000;
    assert Pow256(3) == 0x100_0000 && Pow256(2) == 0x1_0000 && Pow256(1) == 0x100 && Pow256(0) == 1;
    assert forall i :: 0 <= i < 8 ==> Encode64(x)[i] == b[i];
    Decode64OfEncode64(x);
  }

  // ---- host order: htobe64 and betoh64 return a uint64_t ----

  /** The byte order of the machine the program runs on. */
  datatype ByteOrder = LittleEndianHost | BigEndianHost

  function Reverse(s: seq<byte>): (r: seq<byte>)
    ensures |r| == |s|
    ensures forall i :: 0 <= i < |s| ==> r[i] == s[|s| - 1 - i]
  {
    if s == [] then [] else Reverse(s[1..]) + [s[0]]
  }

  lemma ReverseReverse(s: seq<byte>)
    ensures Reverse(Reverse(s)) == s
  {
  }

  /** How the host stores the uint64_t x in memory. */
  function HostBytes(x: u64, order: ByteOrder): (r: seq<byte>)
    ensures |r| == 8
  {
    match order
    case BigEndianHost => Encode64(x)
    case LittleEndianHost => Reverse(Encode64(x))
  }

  /** The uint64_t the host reads from 8 bytes of memory. */
  function FromHostBytes(b: seq<byte>, order: ByteOrder): (r: u64)
    requires |b| == 8
    ensures HostBytes(r, order) == b
  {
    match order
    case BigEndianHost => Encode64OfDecode64(b); Decode64(b)
    case LittleEndianHost => ReverseReverse(b); Encode64OfDecode64(Reverse(b)); Decode64(Reverse(b))
  }

  lemma FromHostBytesOfHostBytes(x: u64, order: ByteOrder)
    ensures FromHostBytes(HostBytes(x, order), order) == x
  {
    Decode64OfEncode64(x);
    ReverseReverse(Encode64(x));
  }

  /** htobe64 (src/endian.c): the word whose bytes in memory are the big-endian bytes of x. */
  function HostToBigEndian64(x: u64, order: ByteOrder): (r: u64)
    ensures HostBytes(r, order) == Encode64(x)
  {
    FromHostBytes(Encode64(x), order)
  }

  /** betoh64 (src/endian.c) is htobe64 itself. */
  function BigEndianToHost64(x: u64, order: ByteOrder): (r: u64)
    ensures r == HostToBigEndian64(x, order)
  {
    HostToBigEndian64(x, order)
  }

  /** betoh64 undoes htobe64 on either kind of host, and a word read from
      big-endian memory bytes b with betoh64 is the value of b. */
  lemma {:induction false} BigEndianToHostRoundTrip(x: u64, b: seq<byte>, order: ByteOrder)
    requires |b| == 8
    ensures BigEndianToHost64(HostToBigEndian64(x, order), order) == x
    ensures BigEndianToHost64(FromHostBytes(b, order), order) == Decode64(b)
  {
    var y := HostToBigEndian64(x, order);
    var e := Encode64(y);
    assert HostBytes(y, order) == Encode64(x);
    match order {
      case BigEndianHost =>
        Decode64OfEncode64(x);
        Decode64OfEncode64(y);
      case LittleEndianHost =>
        // y is Encode64(x) read in reverse, so Encode64(y) == Reverse(Encode64(x)).
        ReverseReverse(e);
        ReverseReverse(Encode64(x));
        Decode64OfEncode64(x);
        var z := FromHostBytes(Encode64(y), order);
        assert HostBytes(z, order) == e;
        assert Encode64(z) == Reverse(e);
        assert Reverse(e) == Encode64(x);
        Encode64Injective(z, x);
    }
    var w := FromHostBytes(b, order);
    var v := HostToBigEndian64(w, order);
    assert HostBytes(w, order) == b;
    match order {
      case BigEndianHost =>
        Encode64OfDecode64(b);
        Encode64Injective(v, Decode64(b));
      case LittleEndianHost =>
        assert Encode64(w) == Reverse(b) by { ReverseReverse(Encode64(w)); }
        assert HostBytes(v, order) == Reverse(b);
        assert Encode64(v) == b by { ReverseReverse(Encode64(v)); ReverseReverse(b); }
        Encode64OfDecode64(b);
        Encode64Injective(v, Decode64(b));
    }
  }
}
