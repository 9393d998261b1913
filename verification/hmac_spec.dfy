/**
 * HMAC of RFC 2104 section 2 instantiated with SHA-1 (B = 64, L = 20), for
 * keys no longer than a block: such a key is zero-padded to 64 bytes rather
 * than hashed first.
 */
module HmacSpec {
  import opened Sha1Spec

  /** Every byte of s exclusive-ored with pad. */
  function XorPad(s: seq<bv8>, pad: bv8): (r: seq<bv8>)
    ensures |r| == |s|
  {
    if s == [] then [] else XorPad(s[..|s| - 1], pad) + [s[|s| - 1] ^ pad]
  }

  /** K with zeros appended to the block length B = 64 (step (1) of section 2). */
  function PaddedKey(key: seq<bv8>): (k: seq<bv8>)
    requires |key| <= 64
    ensures |k| == 64 && k[..|key|] == key
    ensures forall i :: |key| <= i < 64 ==> k[i] == 0
  {
    key + Zeros(64 - |key|)
  }

  /** H(K XOR opad, H(K XOR ipad, text)) with ipad = 0x36 and opad = 0x5C repeated B times. */
  function HmacDigest(key: seq<bv8>, text: seq<bv8>): (d: seq<bv8>)
    requires |key| <= 64
    ensures |d| == 20
  {
    Sha1Digest(XorPad(PaddedKey(key), 0x5C) + Sha1Digest(XorPad(PaddedKey(key), 0x36) + text))
  }

  /** XorPad works byte by byte: extending the input by a byte extends the output by one. */
  lemma XorPadAppend(s: seq<bv8>, x: bv8, pad: bv8)
    ensures XorPad(s + [x], pad) == XorPad(s, pad) + [x ^ pad]
  {
    assert (s + [x])[..|s|] == s;
  }

  /** Byte i of XorPad(s, pad) is s[i] ^ pad. */
  lemma {:induction false} XorPadAt(s: seq<bv8>, pad: bv8, i: nat)
    requires i < |s|
    ensures XorPad(s, pad)[i] == s[i] ^ pad
  {
    if i < |s| - 1 {
      XorPadAt(s[..|s| - 1], pad, i);
    }
  }

  /** One more key byte gives one more xored byte. */
  lemma XorPadPrefix(key: seq<bv8>, i: nat, pad: bv8)
    requires i < |key|
    ensures XorPad(key[..i + 1], pad) == XorPad(key[..i], pad) + [key[i] ^ pad]
  {
    assert key[..i + 1] == key[..i] + [key[i]];
    XorPadAppend(key[..i], key[i], pad);
  }
}
