/**
 * SHA-1 as FIPS 180-4 defines it, written as pure functions over byte and
 * word sequences. This is the reference the streaming engine is proved against;
 * nothing here is specific to the firmware.
 */
module Sha1Spec {

  /** The initial hash value H(0) of FIPS 180-4 section 5.3.1. */
  const IV: seq<bv32> := [0x67452301, 0xEFCDAB89, 0x98BADCFE, 0x10325476, 0xC3D2E1F0]

  // The logical functions of section 4.1.1.

  function Ch(x: bv32, y: bv32, z: bv32): bv32 { (x & y) ^ (!x & z) }

  function Parity(x: bv32, y: bv32, z: bv32): bv32 { x ^ y ^ z }

  function Maj(x: bv32, y: bv32, z: bv32): bv32 { (x & y) ^ (x & z) ^ (y & z) }

  /** f_t of section 4.1.1: Ch, Parity, Maj, Parity by groups of twenty rounds. */
  function RoundFunction(t: nat, x: bv32, y: bv32, z: bv32): bv32
    requires t < 80
  {
    if t < 20 then Ch(x, y, z)
    else if t < 40 then Parity(x, y, z)
    else if t < 60 then Maj(x, y, z)
    else Parity(x, y, z)
  }

  /** K_t of section 4.2.1. */
  function RoundConstant(t: nat): bv32
    requires t < 80
  {
    if t < 20 then 0x5A827999
    else if t < 40 then 0x6ED9EBA1
    else if t < 60 then 0x8F1BBCDC
    else 0xCA62C1D6
  }

  /** The word whose big-endian bytes are b0 b1 b2 b3 (section 3.1). */
  function WordFromBytes(b0: bv8, b1: bv8, b2: bv8, b3: bv8): bv32
  {
    ((b0 as bv32) << 24) | ((b1 as bv32) << 16) | ((b2 as bv32) << 8) | (b3 as bv32)
  }

  /** The sixteen message words M_0 .. M_15 of one 512-bit block (section 5.2.1). */
  function BlockWords(block: seq<bv8>): (m: seq<bv32>)
    requires |block| == 64
    ensures |m| == 16
    ensures forall i :: 0 <= i < 16 ==>
      m[i] == WordFromBytes(block[4 * i], block[4 * i + 1], block[4 * i + 2], block[4 * i + 3])
  {
    seq(16, i requires 0 <= i < 16 =>
      WordFromBytes(block[4 * i], block[4 * i + 1], block[4 * i + 2], block[4 * i + 3]))
  }

  /** W_t for t >= 16 from W_{t-3}, W_{t-8}, W_{t-14} and W_{t-16} (section 6.1.2, step 1). */
  function NextWord(w3: bv32, w8: bv32, w14: bv32, w16: bv32): bv32
  {
    (w3 ^ w8 ^ w14 ^ w16).RotateLeft(1)
  }

  /** The message schedule W_t of section 6.1.2, step 1, over all eighty rounds. */
  function Schedule(m: seq<bv32>, t: nat): bv32
    requires |m| == 16
  {
    if t < 16 then m[t]
    else NextWord(Schedule(m, t - 3), Schedule(m, t - 8), Schedule(m, t - 14), Schedule(m, t - 16))
  }

  /**
   * T of section 6.1.2, step 3: the sum, modulo 2^32, of the rotated a, f_t,
   * e, W_t and K_t.
   */
  function Temp(rotated: bv32, f: bv32, e: bv32, w: bv32, k: bv32): bv32
  {
    rotated + f + e + w + k
  }

  /**
   * Round t of section 6.1.2, step 3, with schedule word w, on the working
   * variables a, b, c, d, e held as r[0] .. r[4].
   */
  function Round(r: seq<bv32>, t: nat, w: bv32): (r': seq<bv32>)
    requires |r| == 5 && t < 80
    ensures |r'| == 5
  {
    var temp := Temp(r[0].RotateLeft(5), RoundFunction(t, r[1], r[2], r[3]), r[4], w, RoundConstant(t));
    [temp, r[0], r[1].RotateLeft(30), r[2], r[3]]
  }

  /** The working variables after the first t rounds. */
  function Rounds(init: seq<bv32>, m: seq<bv32>, t: nat): (r: seq<bv32>)
    requires |init| == 5 && |m| == 16 && t <= 80
    ensures |r| == 5
  {
    if t == 0 then init else Round(Rounds(init, m, t - 1), t - 1, Schedule(m, t - 1))
  }

  /** Addition modulo 2^32 (section 3.2). */
  function Add(x: bv32, y: bv32): bv32
  {
    x + y
  }

  /** Step 4 of section 6.1.2: the word-by-word sum, modulo 2^32, of two hash values. */
  function AddWords(h: seq<bv32>, r: seq<bv32>): (h': seq<bv32>)
    requires |h| == 5 && |r| == 5
    ensures |h'| == 5
  {
    [Add(h[0], r[0]), Add(h[1], r[1]), Add(h[2], r[2]), Add(h[3], r[3]), Add(h[4], r[4])]
  }

  /** One application of the compression function: H(i) from H(i-1) and block M(i). */
  function Compress(h: seq<bv32>, block: seq<bv8>): (h': seq<bv32>)
    requires |h| == 5 && |block| == 64
    ensures |h'| == 5
  {
    AddWords(h, Rounds(h, BlockWords(block), 80))
  }

  /**
   * The hash value after compressing, in order and starting from IV, the n
   * blocks that make up m.
   */
  function HashBlockCount(m: seq<bv8>, n: nat): (h: seq<bv32>)
    requires |m| == 64 * n
    ensures |h| == 5
  {
    if n == 0 then IV else Compress(HashBlockCount(m[..64 * (n - 1)], n - 1), m[64 * (n - 1)..])
  }

  /** The hash value after compressing every block of m in order, starting from IV. */
  function HashBlocks(m: seq<bv8>): (h: seq<bv32>)
    requires |m| % 64 == 0
    ensures |h| == 5
  {
    HashBlockCount(m, |m| / 64)
  }

  function Zeros(n: nat): (z: seq<bv8>)
    ensures |z| == n && forall i :: 0 <= i < n ==> z[i] == 0
  {
    seq(n, _ => 0)
  }

  /** The last `count` bytes of the big-endian representation of n. */
  function BytesBE(n: nat, count: nat): (s: seq<bv8>)
    ensures |s| == count
  {
    if count == 0 then [] else BytesBE(n / 256, count - 1) + [(n % 256) as bv8]
  }

  /**
   * The padded message of section 5.1.1: a one bit, k zero bits with k the
   * least that makes the length 448 mod 512, and the 64-bit message length.
   */
  function Pad(m: seq<bv8>): (p: seq<bv8>)
    ensures |p| % 64 == 0 && |p| >= |m| + 9
    ensures p[..|m|] == m
  {
    m + [0x80] + Zeros((55 - |m|) % 64) + BytesBE(8 * |m|, 8)
  }

  /** The low byte of a word (the narrowing a store into a byte performs). */
  function Low8(x: bv32): bv8
  {
    (x & 0xFF) as bv8
  }

  /** Byte k of w counted from the most significant end: bits 31-8k down to 24-8k. */
  function WordByte(w: bv32, k: nat): bv8
    requires k < 4
  {
    Low8(w >> (8 * (3 - k)))
  }

  /** The 160-bit message digest H0 || H1 || H2 || H3 || H4, each word big-endian. */
  function Serialize(h: seq<bv32>): (d: seq<bv8>)
    requires |h| == 5
    ensures |d| == 20
  {
    seq(20, i requires 0 <= i < 20 => WordByte(h[i / 4], i % 4))
  }

  /** SHA-1(m) as FIPS 180-4 defines it. */
  function Sha1Digest(m: seq<bv8>): (d: seq<bv8>)
    ensures |d| == 20
  {
    Serialize(HashBlocks(Pad(m)))
  }

  /** Appending one block to a whole number of blocks costs one compression. */
  lemma HashBlocksAppend(m: seq<bv8>, block: seq<bv8>)
    requires |m| % 64 == 0 && |block| == 64
    ensures HashBlocks(m + block) == Compress(HashBlocks(m), block)
  {
    var mb := m + block;
    var n := |m| / 64;
    assert |mb| / 64 == n + 1;
    assert mb[..64 * n] == m;
    assert mb[64 * n..] == block;
  }

  /** A big-endian field holding zero is all zero bytes. */
  lemma {:induction false} BytesBEZero(count: nat)
    ensures BytesBE(0, count) == Zeros(count)
  {
    if count > 0 {
      BytesBEZero(count - 1);
      assert Zeros(count - 1) + [0] == Zeros(count);
    }
  }

  /** Below 2^16 the 64-bit length field has six zero bytes and then the two low bytes. */
  lemma LengthFieldSmall(n: nat)
    requires n < 0x1_0000
    ensures BytesBE(n, 8) == Zeros(6) + BytesBE(n, 2)
    ensures BytesBE(n, 2) == [(n / 256) as bv8, (n % 256) as bv8]
  {
    calc {
      BytesBE(n, 8);
      BytesBE(n / 256, 7) + [(n % 256) as bv8];
      BytesBE(n / 256 / 256, 6) + [(n / 256 % 256) as bv8] + [(n % 256) as bv8];
      { assert n / 256 / 256 == 0; BytesBEZero(6); }
      Zeros(6) + [(n / 256 % 256) as bv8] + [(n % 256) as bv8];
    }
    assert BytesBE(n, 2) == BytesBE(n / 256 / 256, 0) + [(n / 256 % 256) as bv8] + [(n % 256) as bv8];
  }
}
