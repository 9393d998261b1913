/**
 * The firmware's streaming SHA-1 engine (class SHA1 of sha1.h / sha1.cpp):
 * five chaining words, one 64-byte block buffer, the index of the next free
 * byte in it and a 16-bit count of the message bits absorbed so far.
 */
module Sha1Impl {
  import opened Sha1Spec

  /** The four round constants of the source, one per group of twenty rounds. */
  const K: seq<bv32> := [0x5A827999, 0x6ED9EBA1, 0x8F1BBCDC, 0xCA62C1D6]

  /** The CircularShift macro: a left rotation of a 32-bit word. */
  function CircularShift(bits: nat, word: bv32): (r: bv32)
    requires 0 < bits < 32
    ensures r == word.RotateLeft(bits)
  {
    (word << bits) | (word >> (32 - bits))
  }

  /**
   * extendBlock: the next schedule word, computed from the sixteen-word window
   * in which W[s] is kept at index s % 16.
   */
  function ExtendBlock(w: array<bv32>, t: nat): (r: bv32)
    reads w
    requires w.Length == 16 && t >= 16
    ensures r == NextWord(w[(t - 3) % 16], w[(t - 8) % 16], w[(t - 14) % 16], w[(t - 16) % 16])
  {
    ShiftedXorIsNextWord(w[(t - 3) % 16], w[(t - 8) % 16], w[(t - 14) % 16], w[(t - 16) % 16]);
    CircularShift(1, w[(t - 3) % 16] ^ w[(t - 8) % 16] ^ w[(t - 14) % 16] ^ w[(t - 16) % 16])
  }

  /** K holds the FIPS 180-4 constant of each round: K[t / 20] for round t. */
  lemma RoundConstantsAsWritten(t: nat)
    requires t < 80
    ensures K[t / 20] == RoundConstant(t)
  {
  }

  /** The round in [t - 16, t) whose schedule word lives in slot i of the window. */
  function Slot(t: nat, i: nat): (s: int)
    requires t >= 16 && i < 16
    ensures t - 16 <= s < t && s % 16 == i
  {
    t - 16 + (i - t) % 16
  }

  /** Slot t % 16 passes from round t - 16 to round t; every other slot keeps its round. */
  lemma SlotNext(t: nat, i: nat)
    requires t >= 16 && i < 16
    ensures Slot(t + 1, i) == if i == t % 16 then t else Slot(t, i)
  {
  }

  /** Each of the sixteen rounds before t owns the slot its number gives modulo 16. */
  lemma SlotOfRound(t: nat, s: int)
    requires t >= 16 && t - 16 <= s < t
    ensures Slot(t, s % 16) == s
  {
    var r := Slot(t, s % 16);
    assert r % 16 == s % 16;
    assert r - s == 16 * ((r - s) / 16);
  }

  /** The window holds the schedule words W[t-16] .. W[t-1] of the block with words m. */
  ghost predicate WindowHolds(w: seq<bv32>, m: seq<bv32>, t: nat)
  {
    |w| == 16 && |m| == 16 && t >= 16 &&
    forall i :: 0 <= i < 16 ==> w[i] == Schedule(m, Slot(t, i))
  }

  /** After the sixteen message words are loaded, the window holds W[0] .. W[15]. */
  lemma WindowStart(w: seq<bv32>, m: seq<bv32>)
    requires |w| == 16 && |m| == 16
    requires forall s :: 0 <= s < 16 ==> w[s] == Schedule(m, s)
    ensures WindowHolds(w, m, 16)
  {
    forall i | 0 <= i < 16
      ensures w[i] == Schedule(m, Slot(16, i))
    {
      assert Slot(16, i) == i;
    }
  }

  /** With the window at round t, slot s % 16 holds W[s] for each of the sixteen rounds s before t. */
  lemma WindowWord(w: seq<bv32>, m: seq<bv32>, t: nat, s: int)
    requires WindowHolds(w, m, t) && t - 16 <= s < t
    ensures w[s % 16] == Schedule(m, s)
  {
    SlotOfRound(t, s);
  }

  /** The source's one-bit circular shift of the xor is the NextWord of FIPS 180-4. */
  lemma ShiftedXorIsNextWord(w3: bv32, w8: bv32, w14: bv32, w16: bv32)
    ensures CircularShift(1, w3 ^ w8 ^ w14 ^ w16) == NextWord(w3, w8, w14, w16)
  {
  }

  /** With the window at round t, extendBlock yields the schedule word W[t]. */
  lemma ExtendBlockIsSchedule(w: array<bv32>, m: seq<bv32>, t: nat)
    requires WindowHolds(w[..], m, t)
    ensures ExtendBlock(w, t) == Schedule(m, t)
  {
    var ws := w[..];
    WindowWord(ws, m, t, t - 3);
    WindowWord(ws, m, t, t - 8);
    WindowWord(ws, m, t, t - 14);
    WindowWord(ws, m, t, t - 16);
  }

  /** Storing W[t] over slot t % 16, which held W[t-16], moves the window one round on. */
  lemma WindowAdvance(w: seq<bv32>, m: seq<bv32>, t: nat)
    requires WindowHolds(w, m, t)
    ensures WindowHolds(w[t % 16 := Schedule(m, t)], m, t + 1)
  {
    var w' := w[t % 16 := Schedule(m, t)];
    forall i | 0 <= i < 16
      ensures w'[i] == Schedule(m, Slot(t + 1, i))
    {
      SlotNext(t, i);
    }
  }

  /** Ch written with | where FIPS 180-4 writes xor: the two terms never share a set bit. */
  lemma ChAsWritten(x: bv32, y: bv32, z: bv32)
    ensures Ch(x, y, z) == (x & y) | (!x & z)
  {
  }

  /** Maj written with | where FIPS 180-4 writes xor: a majority bit is set iff some pair's is. */
  lemma MajAsWritten(x: bv32, y: bv32, z: bv32)
    ensures Maj(x, y, z) == (x & y) | (x & z) | (y & z)
  {
  }

  /**
   * One round as the source writes it: T from the rotated a, the round function
   * f and constant k of round t, e and the schedule word, then the register shift.
   */
  lemma RoundAsWritten(t: nat, a: bv32, b: bv32, c: bv32, d: bv32, e: bv32, wt: bv32, f: bv32, k: bv32)
    requires t < 80 && f == RoundFunction(t, b, c, d) && k == RoundConstant(t)
    ensures Round([a, b, c, d, e], t, wt) == [Temp(CircularShift(5, a), f, e, wt, k), a, CircularShift(30, b), c, d]
  {
  }

  /** Two five-word sequences that agree word by word are equal. */
  lemma FiveWords(s: seq<bv32>, t: seq<bv32>)
    requires |s| == 5 && |t| == 5
    requires s[0] == t[0] && s[1] == t[1] && s[2] == t[2] && s[3] == t[3] && s[4] == t[4]
    ensures s == t
  {
    assert forall i | 0 <= i < 5 :: s[i] == t[i];
  }

  /**
   * The padding digest() applies: that of FIPS 180-4 section 5.1.1, except that
   * the length field carries only the 16-bit bit count, the six bytes above it
   * being written as zero.
   */
  function NarrowPad(m: seq<bv8>): (p: seq<bv8>)
    ensures |p| % 64 == 0 && |p| >= |m| + 9 && p[..|m|] == m
  {
    m + [0x80] + Zeros((55 - |m|) % 64) + Zeros(6) + BytesBE((8 * |m|) % 0x1_0000, 2)
  }

  /** What digest() writes: the digest of the narrowly padded message. */
  function NarrowSha1(m: seq<bv8>): (d: seq<bv8>)
    ensures |d| == 20
  {
    Serialize(HashBlocks(NarrowPad(m)))
  }

  /** Under 2^16 bits (8192 bytes) the narrow padding is the FIPS 180-4 padding. */
  lemma NarrowPadIsPad(m: seq<bv8>)
    requires |m| < 8192
    ensures NarrowPad(m) == Pad(m)
    ensures NarrowSha1(m) == Sha1Digest(m)
  {
    var n := 8 * |m|;
    LengthFieldSmall(n);
    var head := m + [0x80] + Zeros((55 - |m|) % 64);
    assert n % 0x1_0000 == n;
    assert NarrowPad(m) == head + Zeros(6) + BytesBE(n, 2);
    assert head + Zeros(6) + BytesBE(n, 2) == head + (Zeros(6) + BytesBE(n, 2));
  }

  /** At 2^16 bits the 16-bit counter has wrapped and the length field is wrong. */
  lemma NarrowPadWrapsAt8192(m: seq<bv8>)
    requires |m| == 8192
    ensures NarrowPad(m) != Pad(m)
  {
    var body := m + [0x80] + Zeros(55);
    assert (55 - |m|) % 64 == 55;
    assert Pad(m) == body + BytesBE(65536, 8);
    assert NarrowPad(m) == body + (Zeros(6) + BytesBE(0, 2));
    LengthField8192();
    assert Pad(m)[|body| + 5] == 1;
  }

  /** The 64-bit length field of a 2^16-bit message has a one in its sixth byte. */
  lemma LengthField8192()
    ensures BytesBE(65536, 8)[5] == 1
  {
    var low := BytesBE(1, 6);
    assert low == BytesBE(0, 5) + [1];
    assert BytesBE(256, 7) == low + [0];
    assert BytesBE(65536, 8) == low + [0] + [0];
  }

  /** A prefix one longer is the prefix followed by the next element. */
  lemma PrefixStep(s: seq<bv8>, i: nat)
    requires i < |s|
    ensures s[..i + 1] == s[..i] + [s[i]]
  {
  }

  /** Adding a byte adds 8 to the 16-bit bit count, modulo 2^16. */
  lemma BitCountStep(len: nat, len': nat)
    requires len' == len + 1
    ensures ((8 * len) % 0x1_0000 + 8) % 0x1_0000 == (8 * len') % 0x1_0000
  {
    var q := (8 * len) / 0x1_0000;
    assert 8 * len' == 0x1_0000 * q + ((8 * len) % 0x1_0000 + 8);
  }

  /** The number of zero bytes the padding inserts depends only on the bytes past the whole blocks. */
  lemma PadZerosCount(done: nat, pending: nat)
    requires done % 64 == 0 && pending < 64
    ensures (55 - (done + pending)) % 64 == if pending <= 55 then 55 - pending else 119 - pending
  {
    var k := done / 64;
    if pending <= 55 {
      assert 55 - (done + pending) == 64 * (-k) + (55 - pending);
    } else {
      assert 55 - (done + pending) == 64 * (-k - 1) + (119 - pending);
    }
  }

  /** A block boundary plus one block is a block boundary. */
  lemma NextBlockBoundary(n: nat)
    requires n % 64 == 0
    ensures (n + 64) % 64 == 0
  {
    var k := n / 64;
    assert n + 64 == 64 * (k + 1);
  }

  /** With more than 55 bytes pending, the narrow padding spills into a second block. */
  lemma PadTwoBlocks(done: seq<bv8>, pending: seq<bv8>, head: seq<bv8>, count: int)
    requires |done| % 64 == 0 && 55 < |pending| < 64
    requires head == done + (pending + [0x80] + Zeros(63 - |pending|))
    requires count == (8 * (|done| + |pending|)) % 0x1_0000
    ensures |head| % 64 == 0
    ensures NarrowPad(done + pending) == head + Zeros(56) + Zeros(6) + BytesBE(count, 2)
  {
    assert |head| == |done| + 64;
    NextBlockBoundary(|done|);
    PadZerosCount(|done|, |pending|);
    var lengthField := Zeros(6) + BytesBE(count, 2);
    assert Zeros(63 - |pending|) + Zeros(56) == Zeros(119 - |pending|);
    calc {
      NarrowPad(done + pending);
      done + pending + [0x80] + Zeros(119 - |pending|) + lengthField;
      done + (pending + [0x80] + Zeros(63 - |pending|)) + Zeros(56) + lengthField;
    }
  }

  /** With at most 55 bytes pending, the narrow padding fits in the same block. */
  lemma PadOneBlock(done: seq<bv8>, pending: seq<bv8>, body: seq<bv8>)
    requires |done| % 64 == 0 && |pending| <= 55
    requires body == pending + [0x80] + Zeros(55 - |pending|)
    ensures NarrowPad(done + pending)
      == done + body + Zeros(6) + BytesBE((8 * (|done| + |pending|)) % 0x1_0000, 2)
  {
    PadZerosCount(|done|, |pending|);
    var lengthField := Zeros(6) + BytesBE((8 * (|done| + |pending|)) % 0x1_0000, 2);
    calc {
      NarrowPad(done + pending);
      done + pending + [0x80] + Zeros(55 - |pending|) + lengthField;
      done + (pending + [0x80] + Zeros(55 - |pending|)) + lengthField;
    }
  }

  class Sha1 {
    const hash: array<bv32>   // mHash[5]
    var bitCount: int         // mBitCount, a 16-bit counter
    var blockIndex: nat       // mBlockIndex
    const block: array<bv8>   // mBlock[64]

    /** The whole blocks absorbed since the last reset, already compressed into hash. */
    ghost var Done: seq<bv8>
    /** The bytes absorbed after them, waiting in block. */
    ghost var Pending: seq<bv8>

    /** The bytes absorbed since the last reset. */
    ghost function Msg(): seq<bv8>
      reads this
    {
      Done + Pending
    }

    /** The shape every state has: the buffers' sizes and the index within the block. */
    ghost predicate Wellformed()
      reads this
    {
      hash.Length == 5 && block.Length == 64 && blockIndex < 64 && 0 <= bitCount < 0x1_0000
    }

    /**
     * A state while a message is absorbed: its whole blocks are compressed into
     * hash, its remaining bytes (at most a block) wait at the start of block, and
     * bitCount is its length in bits modulo 2^16.
     */
    ghost predicate Absorbing()
      reads this, hash, block
    {
      && hash.Length == 5 && block.Length == 64 && 0 <= bitCount < 0x1_0000
      && |Done| % 64 == 0
      && blockIndex == |Pending| <= 64
      && bitCount == (8 * (|Done| + |Pending|)) % 0x1_0000
      && block[..blockIndex] == Pending
      && hash[..] == HashBlocks(Done)
    }

    /** A state between calls: absorbing, with a full block always already compressed. */
    ghost predicate Valid()
      reads this, hash, block
    {
      Absorbing() && blockIndex < 64
    }

    constructor ()
      ensures Valid() && Msg() == []
      ensures fresh(hash) && fresh(block)
    {
      hash := new bv32[5];
      block := new bv8[64];
      new;
      Reset();
    }

    /** Starts a new message: the initial hash value, an empty block, no bits counted. */
    method Reset()
      requires hash.Length == 5 && block.Length == 64
      modifies this, hash
      ensures Valid() && Msg() == []
      ensures hash[..] == IV && blockIndex == 0 && bitCount == 0
    {
      bitCount := 0;
      blockIndex := 0;
      hash[0] := 0x67452301;
      hash[1] := 0xEFCDAB89;
      hash[2] := 0x98BADCFE;
      hash[3] := 0x10325476;
      hash[4] := 0xC3D2E1F0;
      Done, Pending := [], [];
      FiveWords(hash[..], IV);
    }

    /** Absorbs at most 255 bytes (the length is a uint8_t), compressing each block as it fills. */
    method Update(m: seq<bv8>)
      requires Valid() && |m| < 256
      modifies this, hash, block
      ensures Valid() && Msg() == old(Msg()) + m
    {
      for i := 0 to |m|
        invariant Valid() && Msg() == old(Msg()) + m[..i]
      {
        AbsorbByte(m[i]);
        PrefixStep(m, i);
      }
    }

    /** One pass of update's loop: store the byte, count its bits, compress a full block. */
    method AbsorbByte(x: bv8)
      requires Valid()
      modifies this, hash, block
      ensures Valid() && Msg() == old(Msg()) + [x]
    {
      StoreByte(x);
      if blockIndex == 64 {
        CompleteBlock();
      }
    }

    /** Stores the byte at blockIndex and adds its eight bits to the 16-bit count. */
    method StoreByte(x: bv8)
      requires Valid()
      modifies this`blockIndex, this`bitCount, this`Pending, block
      ensures Absorbing() && Done == old(Done) && Pending == old(Pending) + [x]
    {
      BitCountStep(|Done| + |Pending|, |Done| + |Pending| + 1);
      block[blockIndex] := x;
      blockIndex := blockIndex + 1;
      bitCount := (bitCount + 8) % 0x1_0000;
      Pending := Pending + [x];
    }

    /** Compresses the full block: its bytes join the message's whole blocks. */
    method CompleteBlock()
      requires Absorbing() && blockIndex == 64
      modifies this`blockIndex, this`Done, this`Pending, hash, block
      ensures Valid() && Msg() == old(Msg())
    {
      assert block[..] == Pending;
      ProcessBlock();
      HashBlocksAppend(Done, Pending);
      Done, Pending := Done + Pending, [];
    }

    /**
     * Pads the message, compresses the final block or blocks and writes the
     * big-endian digest. The object is left finalized: a new message needs Reset.
     */
    method Digest(out: array<bv8>)
      requires Valid() && out.Length == 20
      modifies this`blockIndex, hash, block, out
      ensures Wellformed() && blockIndex == 0 && bitCount == old(bitCount)
      ensures hash[..] == HashBlocks(NarrowPad(Msg()))
      ensures out[..] == NarrowSha1(Msg())
      ensures |Msg()| < 8192 ==> out[..] == Sha1Digest(Msg())
    {
      ghost var head := PadBlocks();
      ghost var tail := block[..56] + Zeros(6) + BytesBE(bitCount, 2);
      assert NarrowPad(Msg()) == head + tail;
      WriteLength();
      assert block[..] == tail;
      ProcessBlock();
      HashBlocksAppend(head, tail);
      WriteDigest(out);
      if |Msg()| < 8192 {
        NarrowPadIsPad(Msg());
      }
    }

    /**
     * The padding of digest up to the length field: the 0x80 byte and zero bytes,
     * with a block compressed on the way when fewer than nine bytes were free.
     * Returns the bytes of the padded message compressed into hash so far.
     */
    method PadBlocks() returns (ghost head: seq<bv8>)
      requires Valid()
      modifies this`blockIndex, hash, block
      ensures blockIndex == 56 && |head| % 64 == 0 && hash[..] == HashBlocks(head)
      ensures NarrowPad(Msg()) == head + block[..56] + Zeros(6) + BytesBE(bitCount, 2)
    {
      if blockIndex > 55 {
        head := PadSpill();
      } else {
        PadInPlace();
        head := Done;
      }
    }

    /** The branch of PadBlocks where the 0x80 byte leaves no room for the length field. */
    method PadSpill() returns (ghost head: seq<bv8>)
      requires Valid() && blockIndex > 55
      modifies this`blockIndex, hash, block
      ensures blockIndex == 56 && |head| % 64 == 0 && hash[..] == HashBlocks(head)
      ensures NarrowPad(Msg()) == head + block[..56] + Zeros(6) + BytesBE(bitCount, 2)
    {
      ghost var done, pending, count := Done, Pending, bitCount;
      head := SpillBlock();
      PadTwoBlocks(done, pending, head, count);
      FillZeros(56);
      assert block[..56] == Zeros(56);
    }

    /** The 0x80 byte and zero bytes to the end of the block, which is then compressed. */
    method SpillBlock() returns (ghost head: seq<bv8>)
      requires Valid() && blockIndex > 55
      modifies this`blockIndex, hash, block
      ensures head == Done + (Pending + [0x80] + Zeros(63 - |Pending|))
      ensures blockIndex == 0 && hash[..] == HashBlocks(head)
    {
      block[blockIndex] := 0x80;
      blockIndex := blockIndex + 1;
      FillZeros(64);
      ghost var first := block[..];
      assert first == Pending + [0x80] + Zeros(63 - |Pending|);
      ProcessBlock();
      HashBlocksAppend(Done, first);
      head := Done + first;
    }

    /** The branch of PadBlocks where the length field still fits in the current block. */
    method PadInPlace()
      requires Valid() && blockIndex <= 55
      modifies this`blockIndex, block
      ensures blockIndex == 56
      ensures NarrowPad(Msg()) == Done + block[..56] + Zeros(6) + BytesBE(bitCount, 2)
    {
      block[blockIndex] := 0x80;
      blockIndex := blockIndex + 1;
      FillZeros(56);
      ghost var last := block[..56];
      assert last == Pending + [0x80] + Zeros(55 - |Pending|);
      PadOneBlock(Done, Pending, last);
    }

    /** A padding loop of digest: zero bytes from blockIndex up to limit. */
    method FillZeros(limit: nat)
      requires block.Length == 64 && blockIndex <= limit <= 64
      modifies this`blockIndex, block
      ensures blockIndex == limit
      ensures block[..limit] == old(block[..blockIndex]) + Zeros(limit - old(blockIndex))
      ensures block[limit..] == old(block[limit..])
    {
      ghost var start := blockIndex;
      while blockIndex < limit
        invariant start <= blockIndex <= limit
        invariant block[..blockIndex] == old(block[..start]) + Zeros(blockIndex - start)
        invariant block[limit..] == old(block[limit..])
      {
        block[blockIndex] := 0;
        blockIndex := blockIndex + 1;
      }
    }

    /** The last eight bytes of the final block: six zero bytes, then bitCount big-endian. */
    method WriteLength()
      requires block.Length == 64 && 0 <= bitCount < 0x1_0000
      modifies block
      ensures block[..] == old(block[..56]) + Zeros(6) + BytesBE(bitCount, 2)
    {
      LengthFieldSmall(bitCount);
      block[56] := 0;
      block[57] := 0;
      block[58] := 0;
      block[59] := 0;
      block[60] := 0;
      block[61] := 0;
      block[62] := (bitCount / 256) as bv8;  // mBitCount >> 8
      block[63] := (bitCount % 256) as bv8;  // the low byte of mBitCount
    }

    /** The output loop of digest: each hash word written out most significant byte first. */
    method WriteDigest(out: array<bv8>)
      requires hash.Length == 5 && out.Length == 20
      modifies out
      ensures out[..] == Serialize(hash[..])
    {
      // out[i] takes byte (3 - i & 3) of hash[i >> 2]
      for i := 0 to 20
        invariant forall j :: 0 <= j < i ==> out[j] == Serialize(hash[..])[j]
      {
        out[i] := Low8(hash[i / 4] >> (8 * (3 - i % 4)));
      }
    }

    /**
     * processBlock: the compression function of FIPS 180-4 section 6.1.2 on the
     * full block buffer, with the schedule kept in a rolling window of sixteen words.
     */
    method ProcessBlock()
      requires hash.Length == 5 && block.Length == 64
      modifies this`blockIndex, hash, block
      ensures blockIndex == 0
      ensures hash[..] == Compress(old(hash[..]), old(block[..]))
    {
      var w := new bv32[16];
      LoadWords(w);
      ghost var init := hash[..];
      assert init == [hash[0], hash[1], hash[2], hash[3], hash[4]];
      var a, b, c, d, e := CompressionRounds(w, BlockWords(block[..]), hash[0], hash[1], hash[2], hash[3], hash[4]);
      assert [a, b, c, d, e] == Rounds(init, BlockWords(old(block[..])), 80);
      AddRegisters(a, b, c, d, e);
      blockIndex := 0;
    }

    /** The first loop of processBlock: the block's bytes as sixteen big-endian words. */
    method LoadWords(w: array<bv32>)
      requires block.Length == 64 && w.Length == 16
      modifies w
      ensures forall s :: 0 <= s < 16 ==> w[s] == Schedule(BlockWords(block[..]), s)
    {
      ghost var m := BlockWords(block[..]);
      for t := 0 to 16
        invariant forall s :: 0 <= s < t ==> w[s] == Schedule(m, s)
      {
        var wt := (block[t * 4] as bv32) << 24;
        wt := wt | ((block[t * 4 + 1] as bv32) << 16);
        wt := wt | ((block[t * 4 + 2] as bv32) << 8);
        wt := wt | (block[t * 4 + 3] as bv32);
        w[t] := wt;
      }
    }

    /** The feed-forward that ends processBlock: each register is added into its hash word. */
    method AddRegisters(a: bv32, b: bv32, c: bv32, d: bv32, e: bv32)
      requires hash.Length == 5
      modifies hash
      ensures hash[..] == AddWords(old(hash[..]), [a, b, c, d, e])
    {
      ghost var init := hash[..];
      hash[0] := Add(hash[0], a);
      hash[1] := Add(hash[1], b);
      hash[2] := Add(hash[2], c);
      hash[3] := Add(hash[3], d);
      hash[4] := Add(hash[4], e);
      FiveWords(hash[..], AddWords(init, [a, b, c, d, e]));
    }
  }

  /**
   * The eighty rounds of processBlock on the working variables a .. e, in the
   * source's five loops, with the schedule extended in the window w as they go.
   */
  method CompressionRounds(w: array<bv32>, ghost m: seq<bv32>, a0: bv32, b0: bv32, c0: bv32, d0: bv32, e0: bv32)
    returns (a: bv32, b: bv32, c: bv32, d: bv32, e: bv32)
    requires w.Length == 16 && |m| == 16
    requires forall s :: 0 <= s < 16 ==> w[s] == Schedule(m, s)
    modifies w
    ensures [a, b, c, d, e] == Rounds([a0, b0, c0, d0, e0], m, 80)
  {
    ghost var init := [a0, b0, c0, d0, e0];
    a, b, c, d, e := FirstRounds(w, m, init, a0, b0, c0, d0, e0);
    WindowStart(w[..], m);
    a, b, c, d, e := ChRounds(w, m, init, a, b, c, d, e);
    a, b, c, d, e := ParityRounds(w, m, init, 20, 40, K[1], a, b, c, d, e);
    a, b, c, d, e := MajRounds(w, m, init, a, b, c, d, e);
    a, b, c, d, e := ParityRounds(w, m, init, 60, 80, K[3], a, b, c, d, e);
  }

  /**
   * Rounds 0 to 15 of processBlock (f = Ch, constant K[0]), each taking its
   * schedule word straight from the loaded block words.
   */
  method FirstRounds(w: array<bv32>, ghost m: seq<bv32>, ghost init: seq<bv32>,
                     a0: bv32, b0: bv32, c0: bv32, d0: bv32, e0: bv32)
    returns (a: bv32, b: bv32, c: bv32, d: bv32, e: bv32)
    requires w.Length == 16 && |m| == 16 && |init| == 5
    requires forall s :: 0 <= s < 16 ==> w[s] == Schedule(m, s)
    requires [a0, b0, c0, d0, e0] == Rounds(init, m, 0)
    ensures [a, b, c, d, e] == Rounds(init, m, 16)
  {
    a, b, c, d, e := a0, b0, c0, d0, e0;
    for t := 0 to 16
      invariant [a, b, c, d, e] == Rounds(init, m, t)
    {
      ChAsWritten(b, c, d);
      RoundAsWritten(t, a, b, c, d, e, w[t], ((b & c) | (!b & d)), K[0]);
      var temp := Temp(CircularShift(5, a), ((b & c) | (!b & d)), e, w[t], K[0]);
      e := d;
      d := c;
      c := CircularShift(30, b);
      b := a;
      a := temp;
    }
  }

  /** Rounds 16 to 19 (f = Ch, constant K[0]), extending the schedule in the window. */
  method ChRounds(w: array<bv32>, ghost m: seq<bv32>, ghost init: seq<bv32>,
                  a0: bv32, b0: bv32, c0: bv32, d0: bv32, e0: bv32)
    returns (a: bv32, b: bv32, c: bv32, d: bv32, e: bv32)
    requires w.Length == 16 && |init| == 5
    requires WindowHolds(w[..], m, 16) && [a0, b0, c0, d0, e0] == Rounds(init, m, 16)
    modifies w
    ensures WindowHolds(w[..], m, 20) && [a, b, c, d, e] == Rounds(init, m, 20)
  {
    a, b, c, d, e := a0, b0, c0, d0, e0;
    for t := 16 to 20
      invariant [a, b, c, d, e] == Rounds(init, m, t)
      invariant WindowHolds(w[..], m, t)
    {
      var wt := NextScheduleWord(w, m, t);
      ChAsWritten(b, c, d);
      RoundAsWritten(t, a, b, c, d, e, wt, ((b & c) | (!b & d)), K[0]);
      var temp := Temp(CircularShift(5, a), ((b & c) | (!b & d)), e, wt, K[0]);
      e := d;
      d := c;
      c := CircularShift(30, b);
      b := a;
      a := temp;
    }
  }

  /**
   * Rounds from to to - 1 of a group whose round function is Parity, with
   * constant k: rounds 20 to 39 with K[1] and rounds 60 to 79 with K[3].
   */
  method ParityRounds(w: array<bv32>, ghost m: seq<bv32>, ghost init: seq<bv32>, from: nat, to: nat, k: bv32,
                      a0: bv32, b0: bv32, c0: bv32, d0: bv32, e0: bv32)
    returns (a: bv32, b: bv32, c: bv32, d: bv32, e: bv32)
    requires w.Length == 16 && |init| == 5
    requires (from == 20 && to == 40 && k == K[1]) || (from == 60 && to == 80 && k == K[3])
    requires WindowHolds(w[..], m, from) && [a0, b0, c0, d0, e0] == Rounds(init, m, from)
    modifies w
    ensures WindowHolds(w[..], m, to) && [a, b, c, d, e] == Rounds(init, m, to)
  {
    a, b, c, d, e := a0, b0, c0, d0, e0;
    for t := from to to
      invariant [a, b, c, d, e] == Rounds(init, m, t)
      invariant WindowHolds(w[..], m, t)
    {
      var wt := NextScheduleWord(w, m, t);
      RoundAsWritten(t, a, b, c, d, e, wt, (b ^ c ^ d), k);
      var temp := Temp(CircularShift(5, a), (b ^ c ^ d), e, wt, k);
      e := d;
      d := c;
      c := CircularShift(30, b);
      b := a;
      a := temp;
    }
  }

  /** Rounds 40 to 59 (f = Maj, constant K[2]). */
  method MajRounds(w: array<bv32>, ghost m: seq<bv32>, ghost init: seq<bv32>,
                   a0: bv32, b0: bv32, c0: bv32, d0: bv32, e0: bv32)
    returns (a: bv32, b: bv32, c: bv32, d: bv32, e: bv32)
    requires w.Length == 16 && |init| == 5
    requires WindowHolds(w[..], m, 40) && [a0, b0, c0, d0, e0] == Rounds(init, m, 40)
    modifies w
    ensures WindowHolds(w[..], m, 60) && [a, b, c, d, e] == Rounds(init, m, 60)
  {
    a, b, c, d, e := a0, b0, c0, d0, e0;
    for t := 40 to 60
      invariant [a, b, c, d, e] == Rounds(init, m, t)
      invariant WindowHolds(w[..], m, t)
    {
      var wt := NextScheduleWord(w, m, t);
      MajAsWritten(b, c, d);
      RoundAsWritten(t, a, b, c, d, e, wt, ((b & c) | (b & d) | (c & d)), K[2]);
      var temp := Temp(CircularShift(5, a), ((b & c) | (b & d) | (c & d)), e, wt, K[2]);
      e := d;
      d := c;
      c := CircularShift(30, b);
      b := a;
      a := temp;
    }
  }

  /**
   * W[t] = extendBlock(t), stored over slot t % 16 of the window, which moves
   * on to round t + 1.
   */
  method NextScheduleWord(w: array<bv32>, ghost m: seq<bv32>, t: nat) returns (wt: bv32)
    requires WindowHolds(w[..], m, t) && w.Length == 16
    modifies w
    ensures wt == Schedule(m, t)
    ensures WindowHolds(w[..], m, t + 1)
  {
    ExtendBlockIsSchedule(w, m, t);
    WindowAdvance(w[..], m, t);
    wt := ExtendBlock(w, t);
    w[t % 16] := wt;
    assert w[..] == old(w[..])[t % 16 := wt];
  }

  /** A message splits in one way only into whole blocks and fewer than 64 further bytes. */
  lemma BlockSplitUnique(d1: seq<bv8>, p1: seq<bv8>, d2: seq<bv8>, p2: seq<bv8>)
    requires d1 + p1 == d2 + p2
    requires |d1| % 64 == 0 && |d2| % 64 == 0 && |p1| < 64 && |p2| < 64
    ensures d1 == d2 && p1 == p2
  {
    var n := |d1| + |p1|;
    assert n % 64 == |p1| by {
      assert n == 64 * (|d1| / 64) + |p1|;
    }
    assert n % 64 == |p2| by {
      assert n == 64 * (|d2| / 64) + |p2|;
    }
    assert d1 == (d1 + p1)[..|d1|];
    assert d2 == (d2 + p2)[..|d2|];
    assert p1 == (d1 + p1)[|d1|..];
    assert p2 == (d2 + p2)[|d2|..];
  }

  /**
   * What the invariant says in terms of the absorbed message alone: the index is
   * its length modulo 64, the buffer holds that many of its last bytes, the hash
   * words hash all the rest and the counter is its bit length modulo 2^16.
   */
  lemma ValidState(s: Sha1)
    requires s.Valid()
    ensures var m := s.Msg(); var n := |m| - s.blockIndex;
      && s.blockIndex == |m| % 64 && 0 <= n && n % 64 == 0
      && s.block[..s.blockIndex] == m[n..] && s.hash[..] == HashBlocks(m[..n])
      && s.bitCount == (8 * |m|) % 0x1_0000
  {
    var m := s.Msg();
    assert m[..|s.Done|] == s.Done && m[|s.Done|..] == s.Pending;
  }

  /** Two objects that absorbed the same bytes since their reset are in the same state. */
  lemma StateDeterminedByMsg(x: Sha1, y: Sha1)
    requires x.Valid() && y.Valid() && x.Msg() == y.Msg()
    ensures x.hash[..] == y.hash[..] && x.bitCount == y.bitCount && x.blockIndex == y.blockIndex
    ensures x.block[..x.blockIndex] == y.block[..y.blockIndex]
  {
    BlockSplitUnique(x.Done, x.Pending, y.Done, y.Pending);
  }
}
