/** The MD5 of the installer (installer.c, MD5Init, MD5Update, MD5Final and
    CalculateFileMD5): the bookkeeping around the compression function, as sections 3.1 to
    3.5 of RFC 1321 describe it. The compression function MD5Transform itself is a parameter,
    so what is proved is that the context feeds it the padded message one 64-byte block at a
    time, in order, and reports its final words. */
module Md5Context {
  import opened Wrappers
  import opened Bytes
  import opened Text

  /** The four chaining words A, B, C, D. */
  type Words = s: seq<u32> | |s| == 4 witness [0, 0, 0, 0]

  /** MD5Transform: one compression of a 64-byte block into the chaining words. */
  type Transform = (Words, seq<byte>) -> Words

  /** The initial words of section 3.3 of RFC 1321. */
  const MD5_INIT: Words := [0x67452301, 0xefcdab89, 0x98badcfe, 0x10325476]

  function Zeros(n: nat): (z: seq<byte>)
    ensures |z| == n && forall i :: 0 <= i < n ==> z[i] == 0
  {
    if n == 0 then [] else [0] + Zeros(n - 1)
  }

  /** PADDING: one 0x80 byte followed by 63 zero bytes. */
  const PADDING: seq<byte> := [0x80] + Zeros(63)

  /** A whole number of 64-byte blocks. */
  predicate Blocks(data: seq<byte>)
    decreases |data|
  {
    |data| == 0 || (|data| >= 64 && Blocks(data[64..]))
  }

  lemma {:induction false} BlocksIff(data: seq<byte>)
    ensures Blocks(data) <==> |data| % 64 == 0
    decreases |data|
  {
    if |data| >= 64 {
      BlocksIff(data[64..]);
    }
  }

  /** Compressing a whole number of blocks, first block first. */
  function Absorb(transform: Transform, st: Words, data: seq<byte>): (r: Words)
    requires Blocks(data)
    decreases |data|
  {
    if |data| == 0 then st
    else Absorb(transform, transform(st, data[..64]), data[64..])
  }

  /** Compressing x and then y is compressing x + y. */
  lemma {:induction false} AbsorbAppend(transform: Transform, st: Words, x: seq<byte>, y: seq<byte>)
    requires Blocks(x) && Blocks(y)
    ensures Blocks(x + y)
    ensures Absorb(transform, st, x + y) == Absorb(transform, Absorb(transform, st, x), y)
    decreases |x|
  {
    if |x| == 0 {
      assert x + y == y;
    } else {
      AbsorbAppend(transform, transform(st, x[..64]), x[64..], y);
      assert (x + y)[..64] == x[..64];
      assert (x + y)[64..] == x[64..] + y;
    }
  }

  /** One more block at the end is one more compression. */
  lemma AbsorbBlock(transform: Transform, st: Words, data: seq<byte>, block: seq<byte>)
    requires Blocks(data) && |block| == 64
    ensures Blocks(data + block)
    ensures Absorb(transform, st, data + block) == transform(Absorb(transform, st, data), block)
  {
    assert block[64..] == [];
    assert block[..64] == block;
    AbsorbAppend(transform, st, data, block);
  }

  lemma ModAddLeft(a: nat, b: nat, m: nat)
    requires m > 0
    ensures (a % m + b) % m == (a + b) % m
  {
    ModUnique(a + b, m, a / m + (a % m + b) / m, (a % m + b) % m);
  }

  /** The 64-bit bit count of a message of n bytes. */
  function BitLen(n: nat): (b: nat)
    ensures b < 0x1_0000_0000_0000_0000 && b % 8 == 0
  {
    (8 * n) % 0x1_0000_0000_0000_0000
  }

  /** The number of padding bytes MD5Final adds when `index` bytes are buffered: at least one
      and at most 64, so that the padded length is 56 modulo 64 (section 3.1 of RFC 1321). */
  function PadLen(index: nat): (p: nat)
    requires index < 64
    ensures 1 <= p <= 64 && (index + p) % 64 == 56
  {
    if index < 56 then 56 - index else 120 - index
  }

  /** The message of section 3.2 of RFC 1321: the input, PADDING up to 56 modulo 64, then
      the bit length modulo 2^64 as a little-endian 64-bit value. */
  function Padded(m: seq<byte>): (r: seq<byte>)
    ensures |r| == |m| + PadLen(|m| % 64) + 8
  {
    m + PADDING[..PadLen(|m| % 64)] + LE64(BitLen(|m|))
  }

  /** The padded message is a whole number of blocks. */
  lemma PaddedBlocks(m: seq<byte>)
    ensures Blocks(Padded(m))
  {
    var k := |m| % 64;
    var extra := if k < 56 then 1 else 2;
    assert |m| == 64 * (|m| / 64) + k;
    assert |Padded(m)| == 64 * (|m| / 64 + extra) + 0;
    ModUnique(|Padded(m)|, 64, |m| / 64 + extra, 0);
    BlocksIff(Padded(m));
  }

  /** The padded message keeps the input, then has one 0x80 byte, only zeros up to the
      length field, and ends with the input's bit length. */
  lemma PaddedShape(m: seq<byte>)
    ensures var r := Padded(m);
      && |r| > |m| && r[..|m|] == m && r[|m|] == 0x80
      && (forall i :: |m| < i < |r| - 8 ==> r[i] == 0)
      && r[|r| - 8..] == LE64(BitLen(|m|))
  {
    var p := PadLen(|m| % 64);
    var r := Padded(m);
    assert r == m + PADDING[..p] + LE64(BitLen(|m|));
    assert r[..|m|] == m;
    assert r[|m|] == PADDING[0] == 0x80;
    assert forall i :: |m| < i < |r| - 8 ==> r[i] == PADDING[i - |m|];
    assert r[|r| - 8..] == LE64(BitLen(|m|));
  }

  /** The four words, each least significant byte first (section 3.5 of RFC 1321). */
  function DigestBytes(w: Words): (d: seq<byte>)
    ensures |d| == 16
  {
    LE32(w[0]) + LE32(w[1]) + LE32(w[2]) + LE32(w[3])
  }

  /** The MD5 of a message, given the compression function. */
  function Md5(transform: Transform, m: seq<byte>): (d: seq<byte>)
    ensures |d| == 16
  {
    PaddedBlocks(m);
    DigestBytes(Absorb(transform, MD5_INIT, Padded(m)))
  }

  /** The bytes MD5Update compresses and the bytes it buffers make up the old input and the
      new data. */
  lemma Regather(done: seq<byte>, kept: seq<byte>, data: seq<byte>, p: nat, i: nat)
    requires p <= i <= |data|
    ensures done + kept + data[..p] + data[p..i] + ([] + data[i..]) == (done + kept) + data
  {
    assert data == data[..p] + data[p..i] + data[i..];
  }

  // ---------------------------------------------------------------- counter arithmetic

  lemma ModOfMod(x: nat, a: nat, b: nat)
    requires a > 0 && b > 0
    ensures (x % (a * b)) % a == x % a
  {
    var r := x % (a * b);
    var q := x / (a * b);
    assert x == (a * b) * q + r;
    assert r == a * (r / a) + r % a;
    assert x == a * (b * q + r / a) + r % a;
    ModUnique(x, a, b * q + r / a, r % a);
  }

  lemma LowWordBits(n: nat)
    ensures (8 * n) % 0x1_0000_0000 == 8 * (n % 0x2000_0000)
    ensures (8 * n) / 0x1_0000_0000 == n / 0x2000_0000
  {
    var q := n / 0x2000_0000;
    var r := n % 0x2000_0000;
    assert n == 0x2000_0000 * q + r;
    assert 8 * n == 0x1_0000_0000 * q + 8 * r;
    ModUnique(8 * n, 0x1_0000_0000, q, 8 * r);
  }

  lemma LowWordDiv(r: nat)
    ensures (8 * r) / 8 == r
  {
    ModUnique(8 * r, 8, r, 0);
  }

  /** The low word of the bit count of n bytes holds 8 * (n mod 2^29), whose bits 3..8 are
      n mod 64: the buffered-byte index. */
  lemma LowWordIndex(n: nat)
    ensures ((8 * n) % 0x1_0000_0000_0000_0000) % 0x1_0000_0000 == (8 * n) % 0x1_0000_0000
    ensures (8 * n) % 0x1_0000_0000 == 8 * (n % 0x2000_0000)
    ensures ((8 * n) % 0x1_0000_0000 / 8) % 64 == n % 64
  {
    ModOfMod(8 * n, 0x1_0000_0000, 0x1_0000_0000);
    LowWordBits(n);
    IndexOfLowWord(n);
  }

  /** Bits 3..8 of the low word of the bit count of n bytes are n mod 64. */
  lemma IndexOfLowWord(n: nat)
    ensures ((8 * n) % 0x1_0000_0000 / 8) % 64 == n % 64
  {
    var r := n % 0x2000_0000;
    LowWordBits(n);
    LowWordDiv(r);
    assert (8 * n) % 0x1_0000_0000 / 8 == r;
    ModOfMod(n, 64, 0x80_0000);
  }

  /** The 64-bit bit counter as MD5Update keeps it in two 32-bit words: the low word takes
      inputLen << 3, a carry moves into the high word, and the high word also takes
      inputLen >> 29; together this adds 8 * inputLen modulo 2^64. */
  lemma CounterAdd(lo: nat, hi: nat, len: nat)
    requires lo < 0x1_0000_0000 && hi < 0x1_0000_0000 && len < 0x1_0000_0000
    ensures var bits := (len * 8) % 0x1_0000_0000;
      var lo' := (lo + bits) % 0x1_0000_0000;
      var hi' := ((hi + (if lo' < bits then 1 else 0)) % 0x1_0000_0000 + len / 0x2000_0000) % 0x1_0000_0000;
      hi' * 0x1_0000_0000 + lo' == (hi * 0x1_0000_0000 + lo + 8 * len) % 0x1_0000_0000_0000_0000
  {
    var bits := (len * 8) % 0x1_0000_0000;
    LowWordIndex(len);
    ModUnique(8 * len, 0x1_0000_0000, len / 0x2000_0000, bits);
    CounterAddWords(lo, hi, bits, len / 0x2000_0000);
  }

  /** The same addition with 8 * inputLen given by its two words, top * 2^32 + bits. */
  lemma CounterAddWords(lo: nat, hi: nat, bits: nat, top: nat)
    requires lo < 0x1_0000_0000 && hi < 0x1_0000_0000 && bits < 0x1_0000_0000
    ensures var lo' := (lo + bits) % 0x1_0000_0000;
      var hi' := ((hi + (if lo' < bits then 1 else 0)) % 0x1_0000_0000 + top) % 0x1_0000_0000;
      hi' * 0x1_0000_0000 + lo' == (hi * 0x1_0000_0000 + lo + (top * 0x1_0000_0000 + bits)) % 0x1_0000_0000_0000_0000
  {
    var lo' := (lo + bits) % 0x1_0000_0000;
    var carry := if lo' < bits then 1 else 0;
    LowCarry(lo, bits);
    var s := hi + carry + top;
    HighWrap(hi + carry, top);
    var hi' := ((hi + carry) % 0x1_0000_0000 + top) % 0x1_0000_0000;
    assert hi * 0x1_0000_0000 + lo + (top * 0x1_0000_0000 + bits) == s * 0x1_0000_0000 + lo';
    ModUnique(s * 0x1_0000_0000 + lo', 0x1_0000_0000_0000_0000, s / 0x1_0000_0000, hi' * 0x1_0000_0000 + lo');
  }

  /** Adding two 32-bit words: the wrapped sum is below the second word exactly when the
      addition carried out of the low word. */
  lemma LowCarry(lo: nat, bits: nat)
    requires lo < 0x1_0000_0000 && bits < 0x1_0000_0000
    ensures var lo' := (lo + bits) % 0x1_0000_0000;
      lo + bits == (if lo' < bits then 1 else 0) * 0x1_0000_0000 + lo'
  {
    if lo + bits < 0x1_0000_0000 {
      ModUnique(lo + bits, 0x1_0000_0000, 0, lo + bits);
    } else {
      ModUnique(lo + bits, 0x1_0000_0000, 1, lo + bits - 0x1_0000_0000);
    }
  }

  /** Wrapping a 32-bit sum once in the middle and once at the end is wrapping it once. */
  lemma HighWrap(a: nat, b: nat)
    ensures (a % 0x1_0000_0000 + b) % 0x1_0000_0000 == (a + b) % 0x1_0000_0000
  {
    var h := a % 0x1_0000_0000;
    var r := (h + b) % 0x1_0000_0000;
    ModUnique(h + b, 0x1_0000_0000, (h + b) / 0x1_0000_0000, r);
    ModUnique(a + b, 0x1_0000_0000, a / 0x1_0000_0000 + (h + b) / 0x1_0000_0000, r);
  }

  /** Adding the bits of b more bytes to the count of a bytes, modulo 2^64. */
  lemma BitLenAdd(a: nat, b: nat)
    ensures (BitLen(a) + 8 * b) % 0x1_0000_0000_0000_0000 == BitLen(a + b)
  {
    var u := 0x1_0000_0000_0000_0000;
    ModUnique(8 * (a + b), u, (8 * a) / u + ((8 * a) % u + 8 * b) / u, ((8 * a) % u + 8 * b) % u);
  }

  /** The counter lines of MD5Update, step by step, applied to the count of n bytes give the
      count of n + len bytes. */
  lemma CounterStep(lo: nat, hi: nat, len: nat, n: nat)
    requires lo < 0x1_0000_0000 && hi < 0x1_0000_0000 && len < 0x1_0000_0000
    requires hi * 0x1_0000_0000 + lo == BitLen(n)
    ensures var bits := (len * 8) % 0x1_0000_0000;
      var lo' := (lo + bits) % 0x1_0000_0000;
      var h := if lo' < bits then (hi + 1) % 0x1_0000_0000 else hi;
      ((h + len / 0x2000_0000) % 0x1_0000_0000) * 0x1_0000_0000 + lo' == BitLen(n + len)
  {
    var bits := (len * 8) % 0x1_0000_0000;
    var lo' := (lo + bits) % 0x1_0000_0000;
    var carry := if lo' < bits then 1 else 0;
    var hiNext := ((hi + carry) % 0x1_0000_0000 + len / 0x2000_0000) % 0x1_0000_0000;
    CounterAdd(lo, hi, len);
    assert hiNext * 0x1_0000_0000 + lo' == (BitLen(n) + 8 * len) % 0x1_0000_0000_0000_0000;
    BitLenAdd(n, len);
    var h := if lo' < bits then (hi + 1) % 0x1_0000_0000 else hi;
    if lo' >= bits {
      ModUnique(hi, 0x1_0000_0000, 0, hi);
    }
    assert h == (hi + carry) % 0x1_0000_0000;
  }

  // ---------------------------------------------------------------- the context

  /** MD5_CTX: the chaining words, the bit counter count[0] (low) and count[1] (high), and the
      64-byte buffer of input not yet compressed. */
  class Md5Ctx {
    var state: Words
    var countLow: u32
    var countHigh: u32
    const buffer: array<byte>
    const transform: Transform
    /** Every byte given to Update since Init, split into the complete blocks already
        compressed and the bytes still waiting in the buffer. */
    ghost var done: seq<byte>
    ghost var kept: seq<byte>

    /** Every byte given to Update since Init. */
    ghost function Input(): seq<byte>
      reads this
    {
      done + kept
    }

    /** count[1] * 2^32 + count[0]. */
    function Counter(): nat
      reads this
    {
      countHigh * 0x1_0000_0000 + countLow
    }

    /** The counter is the input's bit length modulo 2^64, the chaining words are the
        compression of its complete blocks, and the buffer starts with the rest. */
    ghost predicate Valid()
      reads this, buffer
    {
      Buffered() && Counter() == BitLen(|done| + |kept|)
    }

    /** The chaining words are the compression of the complete blocks and the buffer starts
        with the rest. */
    ghost predicate Buffered()
      reads this, buffer
    {
      && buffer.Length == 64
      && Blocks(done) && |kept| < 64
      && state == Absorb(transform, MD5_INIT, done)
      && buffer[..|kept|] == kept
    }

    /** (count[0] >> 3) & 0x3F: the number of buffered bytes. */
    function Index(): nat
      reads this
    {
      (countLow / 8) % 64
    }

    /** count[0] is the low word of the bit count. */
    lemma LowWordIsCount()
      requires Valid()
      ensures countLow == (8 * |Input()|) % 0x1_0000_0000
    {
      ModUnique(BitLen(|Input()|), 0x1_0000_0000, countHigh, countLow);
      LowWordIndex(|Input()|);
    }

    /** The index MD5Update and MD5Final compute from count[0] is the number of bytes held in
        the buffer. */
    lemma IndexIsBuffered()
      requires Valid()
      ensures Index() == |kept| == |Input()| % 64
    {
      LowWordIsCount();
      LowWordIndex(|Input()|);
      BlocksIff(done);
      ModUnique(|Input()|, 64, |done| / 64, |kept|);
    }

    /** Once the input is a whole number of blocks, nothing is buffered and the chaining
        words are the compression of all of it. */
    lemma AllAbsorbed()
      requires Valid() && Blocks(Input())
      ensures state == Absorb(transform, MD5_INIT, Input())
    {
      BlocksIff(Input());
      IndexIsBuffered();
      assert kept == [];
      assert Input() == done;
    }

    /** MD5Init: the initial words of section 3.3 of RFC 1321 and a zero bit count. */
    constructor Init(transform: Transform)
      ensures Valid() && fresh(buffer)
      ensures Input() == [] && state == MD5_INIT && countLow == 0 && countHigh == 0
      ensures this.transform == transform
    {
      this.transform := transform;
      buffer := new byte[64](_ => 0);
      state := MD5_INIT;
      countLow := 0;
      countHigh := 0;
      done := [];
      kept := [];
    }

    /** memcpy(&buffer[at], src, |src|). */
    method CopyIn(at: nat, src: seq<byte>)
      modifies buffer
      requires at + |src| <= buffer.Length
      ensures buffer[..at + |src|] == old(buffer[..at]) + src
    {
      forall k | 0 <= k < |src| {
        buffer[at + k] := src[k];
      }
    }

    /** MD5Update: count the bits, then buffer and compress the data. The counter grows by
        the data's bit length modulo 2^64 and the buffered-byte index by its length modulo
        64. */
    method Update(data: seq<byte>)
      modifies this, buffer
      requires Valid() && |data| < 0x1_0000_0000
      ensures Valid() && Input() == old(Input()) + data
      ensures Counter() == (old(Counter()) + 8 * |data|) % 0x1_0000_0000_0000_0000
      ensures Index() == (old(Index()) + |data|) % 64
    {
      IndexIsBuffered();
      var index := (countLow / 8) % 64;
      ghost var before := Input();
      AddBits(|data|, |before|);
      Feed(index, data);
      BitLenAdd(|before|, |data|);
      IndexIsBuffered();
      ModAddLeft(|before|, |data|, 64);
    }

    /** The buffer lines of MD5Update, after the counter: top up the buffered block and
        compress it when it is full, compress every further complete block straight from the
        input, and buffer the rest. */
    method Feed(index: nat, data: seq<byte>)
      modifies this, buffer
      requires Buffered() && index == |kept|
      ensures Buffered() && Input() == old(Input()) + data
      ensures countLow == old(countLow) && countHigh == old(countHigh)
    {
      ghost var before := Input();
      var index := index;
      var partLen := 64 - index;
      var i: nat;
      if |data| >= partLen {
        ghost var (d, k) := (done, kept);
        FillBlock(index, data[..partLen]);
        i := CompressRest(data, partLen);
        Regather(d, k, data, partLen, i);
        index := 0;
      } else {
        i := 0;
        assert data[i..] == data;
      }
      Stash(index, data[i..]);
      assert Input() == before + data;
    }

    /** The first half of the full-block branch of MD5Update: copy partLen bytes after the
        buffered ones and compress the buffer. */
    method FillBlock(index: nat, part: seq<byte>)
      modifies this, buffer
      requires buffer.Length == 64 && Blocks(done) && state == Absorb(transform, MD5_INIT, done)
      requires |kept| == index && index + |part| == 64 && buffer[..index] == kept
      ensures buffer.Length == 64 && Blocks(done) && state == Absorb(transform, MD5_INIT, done)
      ensures done == old(done) + old(kept) + part && kept == []
      ensures countLow == old(countLow) && countHigh == old(countHigh)
    {
      CopyIn(index, part);
      ghost var block := buffer[..];
      assert block == kept + part;
      AbsorbBlock(transform, MD5_INIT, done, block);
      state := transform(state, buffer[..]);
      done := done + block;
      kept := [];
    }

    /** The block loop of MD5Update: compress every complete 64-byte block of `data` from
        `from` on, straight from the input. */
    method CompressRest(data: seq<byte>, from: nat) returns (i: nat)
      modifies this
      requires from <= |data| && Blocks(done) && state == Absorb(transform, MD5_INIT, done)
      ensures from <= i <= |data| && |data| - i < 64
      ensures Blocks(done) && state == Absorb(transform, MD5_INIT, done)
      ensures done == old(done) + data[from..i] && kept == old(kept)
      ensures countLow == old(countLow) && countHigh == old(countHigh)
    {
      i := from;
      while i + 63 < |data|
        invariant from <= i <= |data|
        invariant Blocks(done) && state == Absorb(transform, MD5_INIT, done)
        invariant done == old(done) + data[from..i] && kept == old(kept)
        invariant countLow == old(countLow) && countHigh == old(countHigh)
      {
        AbsorbBlock(transform, MD5_INIT, done, data[i..i + 64]);
        assert data[from..i] + data[i..i + 64] == data[from..i + 64];
        state := transform(state, data[i..i + 64]);
        done := done + data[i..i + 64];
        i := i + 64;
      }
    }

    /** The last memcpy of MD5Update: buffer the bytes that do not fill a block. */
    method Stash(index: nat, rest: seq<byte>)
      modifies this, buffer
      requires buffer.Length == 64 && |kept| == index && index + |rest| < 64 && buffer[..index] == kept
      ensures kept == old(kept) + rest && buffer[..|kept|] == kept
      ensures done == old(done) && state == old(state)
      ensures countLow == old(countLow) && countHigh == old(countHigh)
    {
      CopyIn(index, rest);
      kept := kept + rest;
    }

    /** The bit-count lines of MD5Update: add inputLen << 3 to count[0], carry into count[1],
        and add inputLen >> 29 to count[1]. */
    method AddBits(len: nat, ghost n: nat)
      modifies this
      requires len < 0x1_0000_0000 && Counter() == BitLen(n)
      ensures Counter() == BitLen(n + len)
      ensures state == old(state) && done == old(done) && kept == old(kept)
    {
      CounterStep(countLow, countHigh, len, n);
      var bits := (len * 8) % 0x1_0000_0000;
      countLow := (countLow + bits) % 0x1_0000_0000;
      if countLow < bits {
        countHigh := (countHigh + 1) % 0x1_0000_0000;
      }
      countHigh := (countHigh + len / 0x2000_0000) % 0x1_0000_0000;
    }

    /** MD5Final: pad with PADDING up to 56 modulo 64, append the bit count as it stood
        before padding, and read the digest off the chaining words. The result is the MD5 of
        everything given to Update since Init. */
    method Final() returns (digest: seq<byte>)
      modifies this, buffer
      requires Valid()
      ensures Valid() && Input() == Padded(old(Input()))
      ensures digest == Md5(transform, old(Input()))
    {
      ghost var m := Input();
      IndexIsBuffered();
      LowWordIsCount();
      var bits := LE32(countLow) + LE32(countHigh);
      LE64OfWords(countLow, countHigh);
      assert bits == LE64(BitLen(|m|));
      var index := (countLow / 8) % 64;
      var padLen := if index < 56 then 56 - index else 120 - index;
      assert padLen == PadLen(|m| % 64);
      Update(PADDING[..padLen]);
      Update(bits);
      assert Input() == Padded(m);
      PaddedBlocks(m);
      AllAbsorbed();
      digest := LE32(state[0]) + LE32(state[1]) + LE32(state[2]) + LE32(state[3]);
    }
  }

  /** CalculateFileMD5: None when the file cannot be opened; otherwise the lower-case hex
      MD5 of its bytes, fed to the context in reads of up to 4096 bytes. */
  method CalculateFileMD5(file: Option<seq<byte>>, transform: Transform) returns (hash: Option<string>)
    ensures file.None? <==> hash.None?
    ensures file.Some? ==> hash == Some(HexLower(Md5(transform, file.value)))
    ensures hash.Some? ==> |hash.value| == 32
  {
    if file.None? {
      return None;
    }
    var content := file.value;
    var ctx := new Md5Ctx.Init(transform);
    var pos := 0;
    while pos < |content|
      invariant pos <= |content|
      invariant ctx.Valid() && fresh(ctx.buffer) && ctx.transform == transform
      invariant ctx.Input() == content[..pos]
    {
      var n := if |content| - pos < 4096 then |content| - pos else 4096;
      ctx.Update(content[pos..pos + n]);
      assert content[..pos] + content[pos..pos + n] == content[..pos + n];
      pos := pos + n;
    }
    assert content[..pos] == content;
    var digest := ctx.Final();
    hash := Some(HexLower(digest));
  }
}
