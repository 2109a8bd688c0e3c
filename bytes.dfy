/** Fixed-width unsigned integers and their little-endian byte encodings.
    Both the server (on x86, where the packed structs are copied in host order) and the
    client tools store multi-byte integers least significant byte first. */
module Bytes {
  type byte = x: int | 0 <= x < 0x100
  type u16 = x: int | 0 <= x < 0x1_0000
  type u32 = x: int | 0 <= x < 0x1_0000_0000
  type u64 = x: int | 0 <= x < 0x1_0000_0000_0000_0000

  /** The moduli of 32-bit and 64-bit unsigned arithmetic. */
  const U32: nat := 0x1_0000_0000
  const U64: nat := 0x1_0000_0000_0000_0000

  /** 256 raised to the n-th power: the number of values that n bytes can hold. */
  function Pow256(n: nat): (p: nat)
    ensures p >= 1
  {
    if n == 0 then 1 else 256 * Pow256(n - 1)
  }

  /** The n low-order bytes of x, least significant first (a truncating store). */
  function LE(x: nat, n: nat): (r: seq<byte>)
    ensures |r| == n
  {
    if n == 0 then [] else [x % 256] + LE(x / 256, n - 1)
  }

  /** The unsigned value of a little-endian byte string. */
  function FromLE(s: seq<byte>): (x: nat)
    ensures x < Pow256(|s|)
  {
    if s == [] then 0 else s[0] + 256 * FromLE(s[1..])
  }

  lemma ModUnique(x: int, d: int, q: int, m: int)
    requires d > 0 && 0 <= m < d && x == d * q + m
    ensures x / d == q && x % d == m
  {
    var k := q - x / d;
    assert d * k == x % d - m;
    MulSign(d, k);
  }

  lemma MulSign(d: int, k: int)
    requires d > 0
    ensures k >= 1 ==> d * k >= d
    ensures k <= -1 ==> d * k <= -d
  {
  }

  lemma {:induction false} ModSplit(x: nat, p: nat)
    requires p >= 1
    ensures x % (256 * p) == x % 256 + 256 * ((x / 256) % p)
  {
    var q := (x / 256) / p;
    var r := (x / 256) % p;
    assert x / 256 == p * q + r;
    assert x == 256 * (x / 256) + x % 256;
    assert x == (256 * p) * q + (256 * r + x % 256);
    ModUnique(x, 256 * p, q, 256 * r + x % 256);
  }

  /** Decoding a truncating store gives back the value modulo the width. */
  lemma {:induction false} FromLEOfLE(x: nat, n: nat)
    ensures FromLE(LE(x, n)) == x % Pow256(n)
  {
    if n > 0 {
      FromLEOfLE(x / 256, n - 1);
      assert LE(x, n)[1..] == LE(x / 256, n - 1);
      ModSplit(x, Pow256(n - 1));
    }
  }

  /** Encoding a decoded byte string gives back the same bytes. */
  lemma {:induction false} LEOfFromLE(s: seq<byte>)
    ensures LE(FromLE(s), |s|) == s
  {
    if s != [] {
      var x := FromLE(s);
      assert x % 256 == s[0] && x / 256 == FromLE(s[1..]) by {
        ModUnique(x, 256, FromLE(s[1..]), s[0]);
      }
      LEOfFromLE(s[1..]);
    }
  }

  /** A value that fits in n bytes survives the round trip unchanged. */
  lemma LERoundTrip(x: nat, n: nat)
    requires x < Pow256(n)
    ensures FromLE(LE(x, n)) == x
  {
    FromLEOfLE(x, n);
  }

  lemma Pow256Values()
    ensures Pow256(2) == 0x1_0000 && Pow256(4) == 0x1_0000_0000
    ensures Pow256(8) == 0x1_0000_0000_0000_0000
  {
    assert Pow256(1) == 256;
    assert Pow256(2) == 0x1_0000;
    assert Pow256(4) == 0x1_0000_0000 by { assert Pow256(3) == 0x100_0000; }
    assert Pow256(8) == 0x1_0000_0000_0000_0000 by {
      assert Pow256(5) == 0x100_0000_0000;
      assert Pow256(6) == 0x1_0000_0000_0000;
      assert Pow256(7) == 0x100_0000_0000_0000;
    }
  }

  /** The value of two byte strings laid end to end: the second one is the high part. */
  lemma {:induction false} FromLEAppend(a: seq<byte>, b: seq<byte>)
    ensures FromLE(a + b) == FromLE(a) + Pow256(|a|) * FromLE(b)
  {
    if a == [] {
      assert a + b == b;
    } else {
      assert (a + b)[0] == a[0] && (a + b)[1..] == a[1..] + b;
      FromLEAppend(a[1..], b);
      Regroup(a[0], FromLE(a[1..]), Pow256(|a| - 1), FromLE(b));
    }
  }

  lemma Regroup(c: int, u: int, p: int, f: int)
    ensures c + 256 * (u + p * f) == (c + 256 * u) + (256 * p) * f
  {
  }

  function LE16(x: nat): (r: seq<byte>) ensures |r| == 2 { LE(x, 2) }
  function LE32(x: nat): (r: seq<byte>) ensures |r| == 4 { LE(x, 4) }
  function LE64(x: nat): (r: seq<byte>) ensures |r| == 8 { LE(x, 8) }

  /** A 64-bit value stored as its low 32-bit word followed by its high word. */
  lemma LE64OfWords(lo: nat, hi: nat)
    requires lo < 0x1_0000_0000 && hi < 0x1_0000_0000
    ensures LE64(hi * 0x1_0000_0000 + lo) == LE32(lo) + LE32(hi)
  {
    Pow256Values();
    var s := LE32(lo) + LE32(hi);
    FromLEAppend(LE32(lo), LE32(hi));
    LERoundTrip(lo, 4);
    LERoundTrip(hi, 4);
    assert FromLE(s) == hi * 0x1_0000_0000 + lo;
    LEOfFromLE(s);
  }

  /** The 16-bit little-endian value stored at offset o: s[o] | s[o+1] << 8. */
  function ReadLE16(s: seq<byte>, o: nat): (v: u16)
    requires o + 2 <= |s|
    ensures v == s[o] as int + 256 * (s[o + 1] as int)
  {
    var w := s[o..o + 2];
    assert w[1..][1..] == [];
    assert FromLE(w[1..]) == w[1];
    FromLE(w)
  }

  /** The 64-bit little-endian value stored at offset o. */
  function ReadLE64(s: seq<byte>, o: nat): (v: u64)
    requires o + 8 <= |s|
    ensures LE64(v) == s[o..o + 8]
  {
    Pow256Values();
    LEOfFromLE(s[o..o + 8]);
    FromLE(s[o..o + 8])
  }

  /** Storing a 16-bit value and reading it back gives the value modulo 2^16. */
  lemma LE16RoundTrip(x: nat)
    ensures ReadLE16(LE16(x), 0) == x % 0x1_0000
  {
    Pow256Values();
    FromLEOfLE(x, 2);
    assert LE16(x)[0..2] == LE16(x);
  }

  lemma LE64RoundTrip(x: u64)
    ensures ReadLE64(LE64(x), 0) == x
  {
    Pow256Values();
    LERoundTrip(x, 8);
    assert LE64(x)[0..8] == LE64(x);
  }

  /** The content after `bytes` are written over it at offset: the length is kept and
      nothing outside the window changes. */
  function Overwrite(f: seq<byte>, offset: nat, bytes: seq<byte>): (r: seq<byte>)
    requires offset + |bytes| <= |f|
    ensures |r| == |f|
    ensures r[offset..offset + |bytes|] == bytes
    ensures forall j :: 0 <= j < |f| && !(offset <= j < offset + |bytes|) ==> r[j] == f[j]
  {
    f[..offset] + bytes + f[offset + |bytes|..]
  }
}
