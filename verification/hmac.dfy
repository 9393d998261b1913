/**
 * The firmware's HMAC-SHA1 (class HMAC_SHA1 of hmac_sha1.h / hmac_sha1.cpp):
 * one SHA-1 engine and no copy of the key, which the caller therefore passes
 * again to digest.
 */
module Hmac {
  import opened Sha1Spec
  import opened Sha1Impl
  import opened HmacSpec

  const IPAD: bv8 := 0x36
  const OPAD: bv8 := 0x5C

  /** The n pad bytes the second loop of reset and of digest feeds. */
  function Repeat(pad: bv8, n: nat): (r: seq<bv8>)
    ensures |r| == n && forall i :: 0 <= i < n ==> r[i] == pad
  {
    seq(n, _ => pad)
  }

  lemma RepeatStep(pad: bv8, n: nat)
    ensures Repeat(pad, n + 1) == Repeat(pad, n) + [pad]
  {
  }

  /**
   * The 64 bytes reset (with ipad) and digest (with opad) feed: key[i] ^ pad for
   * each key byte, then the bare pad byte, which is what K zero-padded and
   * exclusive-ored with the pad holds there.
   */
  function KeyBlock(key: seq<bv8>, pad: bv8): (b: seq<bv8>)
    requires |key| <= 64
    ensures |b| == 64
    ensures b == XorPad(PaddedKey(key), pad)
  {
    XorPadZeros(key, 64 - |key|, pad);
    XorPad(key, pad) + Repeat(pad, 64 - |key|)
  }

  /** A zero byte exclusive-ored with the pad is the pad: zero-padding K and xoring gives bare pad bytes. */
  lemma {:induction false} XorPadZeros(key: seq<bv8>, n: nat, pad: bv8)
    ensures XorPad(key + Zeros(n), pad) == XorPad(key, pad) + Repeat(pad, n)
  {
    if n == 0 {
      assert key + Zeros(0) == key;
    } else {
      var shorter := key + Zeros(n - 1);
      assert key + Zeros(n) == shorter + [0];
      calc {
        XorPad(shorter + [0], pad);
        { XorPadAppend(shorter, 0, pad); }
        XorPad(shorter, pad) + [0 ^ pad];
        { XorPadZeros(key, n - 1, pad); }
        XorPad(key, pad) + Repeat(pad, n - 1) + [pad];
        { RepeatStep(pad, n - 1); }
        XorPad(key, pad) + Repeat(pad, n);
      }
    }
  }

  /** The inner and the outer key block differ in every byte, since ipad and opad differ. */
  lemma KeyBlocksDiffer(key: seq<bv8>)
    requires |key| <= 64
    ensures forall i :: 0 <= i < 64 ==> KeyBlock(key, IPAD)[i] != KeyBlock(key, OPAD)[i]
  {
    var k := PaddedKey(key);
    forall i | 0 <= i < 64
      ensures KeyBlock(key, IPAD)[i] != KeyBlock(key, OPAD)[i]
    {
      XorPadAt(k, IPAD, i);
      XorPadAt(k, OPAD, i);
    }
  }

  /** The MAC digest computes for the key it is given, after the text. */
  function DeviceMac(key: seq<bv8>, text: seq<bv8>): (d: seq<bv8>)
    requires |key| <= 64
    ensures |d| == 20
  {
    NarrowSha1(KeyBlock(key, OPAD) + NarrowSha1(KeyBlock(key, IPAD) + text))
  }

  /** While the inner message stays under 2^16 bits, the device computes the RFC 2104 HMAC. */
  lemma DeviceMacIsHmac(key: seq<bv8>, text: seq<bv8>)
    requires |key| <= 64 && |text| < 8192 - 64
    ensures DeviceMac(key, text) == HmacDigest(key, text)
  {
    var inner := KeyBlock(key, IPAD) + text;
    NarrowPadIsPad(inner);
    var outer := KeyBlock(key, OPAD) + NarrowSha1(inner);
    NarrowPadIsPad(outer);
  }

  /**
   * The object keeps no key and no state of its own: everything it holds is its
   * engine's, fixed by the bytes that engine absorbed.
   */
  lemma HmacState(h: HmacSha1, g: HmacSha1)
    requires h.Valid() && g.Valid() && h.sha.Msg() == g.sha.Msg()
    ensures h.sha.hash[..] == g.sha.hash[..] && h.sha.bitCount == g.sha.bitCount
    ensures h.sha.blockIndex == g.sha.blockIndex == |h.sha.Msg()| % 64
  {
    StateDeterminedByMsg(h.sha, g.sha);
    ValidState(h.sha);
  }

  /** After one block of input exactly one compression has happened and 512 bits are counted. */
  lemma OneBlockAbsorbed(s: Sha1)
    requires s.Valid() && |s.Msg()| == 64
    ensures s.Done == s.Msg() && s.Pending == []
    ensures s.bitCount == 512 && s.blockIndex == 0 && s.hash[..] == Compress(IV, s.Msg())
  {
    var m := s.Msg();
    assert |s.Done| == 64;
    HashBlocksAppend([], m);
    assert [] + m == m;
  }

  class HmacSha1 {
    const sha: Sha1   // mSHA1

    ghost predicate Valid()
      reads this, sha, sha.hash, sha.block
    {
      sha.Valid()
    }

    /** Starts from a freshly reset engine and feeds it the ipad block of the key. */
    constructor (key: seq<bv8>)
      requires |key| <= 64
      ensures Valid() && sha.Msg() == KeyBlock(key, IPAD)
      ensures sha.bitCount == 512 && sha.blockIndex == 0 && sha.hash[..] == Compress(IV, KeyBlock(key, IPAD))
      ensures fresh(sha) && fresh(sha.hash) && fresh(sha.block)
    {
      sha := new Sha1();
      new;
      Reset(key);
      OneBlockAbsorbed(sha);
    }

    /**
     * Feeds the ipad block of the key. The engine is not reset first: the block
     * is appended to whatever it has absorbed already.
     */
    method Reset(key: seq<bv8>)
      requires Valid() && |key| <= 64
      modifies sha, sha.hash, sha.block
      ensures Valid() && sha.Msg() == old(sha.Msg()) + KeyBlock(key, IPAD)
    {
      AbsorbKey(key, IPAD);
    }

    /** The two loops of reset and of digest: key[i] ^ pad byte by byte, then the bare pad byte. */
    method AbsorbKey(key: seq<bv8>, pad: bv8)
      requires Valid() && |key| <= 64
      modifies sha, sha.hash, sha.block
      ensures Valid() && sha.Msg() == old(sha.Msg()) + KeyBlock(key, pad)
    {
      AbsorbXoredKey(key, pad);
      AbsorbPadBytes(64 - |key|, pad);
    }

    /** The first loop: each key byte exclusive-ored with the pad, one byte per update. */
    method AbsorbXoredKey(key: seq<bv8>, pad: bv8)
      requires Valid()
      modifies sha, sha.hash, sha.block
      ensures Valid() && sha.Msg() == old(sha.Msg()) + XorPad(key, pad)
    {
      for i := 0 to |key|
        invariant Valid() && sha.Msg() == old(sha.Msg()) + XorPad(key[..i], pad)
      {
        var ki := key[i] ^ pad;
        sha.Update([ki]);
        XorPadPrefix(key, i, pad);
      }
      assert key[..|key|] == key;
    }

    /** The second loop: the bare pad byte for each of the count positions past the key. */
    method AbsorbPadBytes(count: int, pad: bv8)
      requires Valid()
      modifies sha, sha.hash, sha.block
      ensures Valid() && sha.Msg() == old(sha.Msg()) + Repeat(pad, if count < 0 then 0 else count)
    {
      var i := 0;
      while i < count
        invariant 0 <= i && (i <= count || i == 0)
        invariant Valid() && sha.Msg() == old(sha.Msg()) + Repeat(pad, i)
      {
        sha.Update([pad]);
        RepeatStep(pad, i);
        i := i + 1;
      }
    }

    /** Passes the text on to the engine unchanged. */
    method Update(m: seq<bv8>)
      requires Valid() && |m| < 256
      modifies sha, sha.hash, sha.block
      ensures Valid() && sha.Msg() == old(sha.Msg()) + m
    {
      sha.Update(m);
    }

    /**
     * Writes the inner digest into out, restarts the engine, feeds it the opad
     * block of the key and the inner digest, and overwrites out with the outer digest.
     */
    method Digest(key: seq<bv8>, out: array<bv8>)
      requires Valid() && |key| <= 64 && out.Length == 20
      modifies sha, sha.hash, sha.block, out
      ensures out[..] == NarrowSha1(KeyBlock(key, OPAD) + NarrowSha1(old(sha.Msg())))
    {
      sha.Digest(out);
      ghost var inner := out[..];
      sha.Reset();
      AbsorbKey(key, OPAD);
      assert sha.Msg() == KeyBlock(key, OPAD);
      sha.Update(out[..]);
      assert sha.Msg() == KeyBlock(key, OPAD) + inner;
      sha.Digest(out);
    }
  }
}
