/**
 * The one-shot password computation of main.cpp: HMAC-SHA1 of the secret over
 * the eight time bytes, the dynamic truncation of RFC 4226 section 5.3 (as the
 * firmware writes it, without masking the top bit), the value modulo 10^6 and
 * its six ASCII digits; and getPassword's fixed EEPROM layout.
 */
module Otp {
  import opened Sha1Spec
  import opened HmacSpec
  import opened Hmac

  /** 10^n. */
  function Pow10(n: nat): (p: nat)
    ensures p >= 1
  {
    if n == 0 then 1 else 10 * Pow10(n - 1)
  }

  /** The offset o = digest[19] & 0x0f: the low nibble of the last digest byte. */
  function Offset(d: seq<bv8>): (o: nat)
    requires |d| == 20
    ensures o <= 15 && o + 3 < |d|
  {
    (d[19] & 0x0F) as nat
  }

  /**
   * The value otp accumulates in p: the four digest bytes from the offset on,
   * read as a big-endian 32-bit word, top bit included.
   */
  function Window(d: seq<bv8>): (w: bv32)
    requires |d| == 20
    ensures w >> 24 == d[Offset(d)] as bv32 && (w >> 16) & 0xFF == d[Offset(d) + 1] as bv32
    ensures (w >> 8) & 0xFF == d[Offset(d) + 2] as bv32 && w & 0xFF == d[Offset(d) + 3] as bv32
  {
    var o := Offset(d);
    WordBytes(d[o], d[o + 1], d[o + 2], d[o + 3]);
    WordFromBytes(d[o], d[o + 1], d[o + 2], d[o + 3])
  }

  /** The word built from four big-endian bytes holds each of them in its own byte position. */
  lemma WordBytes(b0: bv8, b1: bv8, b2: bv8, b3: bv8)
    ensures var w := WordFromBytes(b0, b1, b2, b3);
      && w >> 24 == b0 as bv32 && (w >> 16) & 0xFF == b1 as bv32
      && (w >> 8) & 0xFF == b2 as bv32 && w & 0xFF == b3 as bv32
  {
  }

  /** DT of RFC 4226 section 5.3: the same word with its most significant bit cleared. */
  function DynamicTruncation(d: seq<bv8>): (sn: bv32)
    requires |d| == 20
    ensures sn < 0x8000_0000
  {
    Window(d) & 0x7FFF_FFFF
  }

  /** The firmware's value agrees with DT exactly when the first window byte is below 0x80. */
  lemma WindowIsTruncationIff(d: seq<bv8>)
    requires |d| == 20
    ensures Window(d) == DynamicTruncation(d) <==> d[Offset(d)] < 0x80
  {
    var o := Offset(d);
    assert Window(d) == WordFromBytes(d[o], d[o + 1], d[o + 2], d[o + 3]);
    TopBitOfWord(d[o], d[o + 1], d[o + 2], d[o + 3]);
  }

  /** Bit 31 of a big-endian word is bit 7 of its first byte. */
  lemma TopBitOfWord(b0: bv8, b1: bv8, b2: bv8, b3: bv8)
    ensures WordFromBytes(b0, b1, b2, b3) & 0x7FFF_FFFF == WordFromBytes(b0, b1, b2, b3) <==> b0 < 0x80
  {
  }

  /** ASCII '0' .. '9' for a digit value below 10. */
  function DigitChar(v: nat): (c: bv8)
    requires v < 10
    ensures 48 <= c as int <= 57 && c as int - 48 == v
  {
    (48 + v) as bv8
  }

  /**
   * The last n decimal digits of code, most significant first, as ASCII: what
   * otp leaves in password[6 - n ..] after n passes of its digit loop.
   */
  function Digits(code: nat, n: nat): (s: seq<bv8>)
    ensures |s| == n
    ensures forall j :: 0 <= j < n ==> 48 <= s[j] as int <= 57
  {
    if n == 0 then [] else [DigitChar(code / Pow10(n - 1) % 10)] + Digits(code, n - 1)
  }

  /** The number a string of ASCII digits denotes, read most significant digit first. */
  function DecimalValue(s: seq<bv8>): nat
    requires forall j :: 0 <= j < |s| ==> 48 <= s[j] as int <= 57
  {
    if s == [] then 0 else (s[0] as int - 48) * Pow10(|s| - 1) + DecimalValue(s[1..])
  }

  /** The six-digit code of a digest as otp computes it: the window modulo 10^6. */
  function Code(d: seq<bv8>): (c: nat)
    requires |d| == 20
    ensures c < 1000000
  {
    Window(d) as nat % 1000000
  }

  /** The HOTP value of RFC 4226 section 5.3 with six digits: Snum modulo 10^6. */
  function HotpValue(d: seq<bv8>): (c: nat)
    requires |d| == 20
    ensures c < 1000000
  {
    DynamicTruncation(d) as nat % 1000000
  }

  /**
   * The digest of RFC 4226 Appendix D for count 1: offset 11, window 0xc1397eea.
   * The firmware's code is 770730 where the RFC's HOTP value is 287082.
   */
  lemma RfcAppendixDCount1()
    ensures var d: seq<bv8> := [0x75, 0xa4, 0x8a, 0x19, 0xd4, 0xcb, 0xe1, 0x00, 0x64, 0x4e,
                                0x8a, 0xc1, 0x39, 0x7e, 0xea, 0x74, 0x7a, 0x2d, 0x33, 0xab];
      Offset(d) == 11 && Window(d) == 0xc1397eea && Code(d) == 770730 && HotpValue(d) == 287082
  {
    var d: seq<bv8> := [0x75, 0xa4, 0x8a, 0x19, 0xd4, 0xcb, 0xe1, 0x00, 0x64, 0x4e,
                        0x8a, 0xc1, 0x39, 0x7e, 0xea, 0x74, 0x7a, 0x2d, 0x33, 0xab];
    assert Offset(d) == 11;
    assert Window(d) == 0xc1397eea;
    assert DynamicTruncation(d) == 0x41397eea;
  }

  /** A remainder is determined by any decomposition c = k * m + r with 0 <= r < m. */
  lemma ModUnique(c: nat, m: nat, k: nat, r: nat)
    requires m > 0 && c == k * m + r && r < m
    ensures c % m == r
  {
    var q, r' := c / m, c % m;
    assert c == q * m + r';
    if q > k {
      assert (q - k) * m + r' == r;
      MulAtLeast(q - k, m);
      assert false;
    } else if q < k {
      assert (k - q) * m + r == r';
      MulAtLeast(k - q, m);
      assert false;
    }
  }

  /** A positive multiple of m is at least m. */
  lemma MulAtLeast(a: nat, m: nat)
    requires a >= 1
    ensures a * m >= m
  {
    assert a * m == (a - 1) * m + m;
  }

  /** c split at weight p and at weight 10 * p: the digit of weight p sits between the two remainders. */
  lemma Decompose(c: nat, p: nat)
    requires p >= 1
    ensures c == (c / p / 10) * (10 * p) + ((c / p % 10) * p + c % p)
    ensures (c / p % 10) * p + c % p < 10 * p
  {
    var q := c / p;
    assert c == q * p + c % p;
    assert q == (q / 10) * 10 + q % 10;
    MulLe(q % 10, 9, p);
  }

  lemma MulLe(a: nat, b: nat, p: nat)
    requires a <= b
    ensures a * p <= b * p
  {
    assert b * p == a * p + (b - a) * p;
  }

  /** The digit of weight p joined to the remainder below p is the remainder below 10 * p. */
  lemma DigitSplit(c: nat, p: nat)
    requires p >= 1
    ensures (c / p % 10) * p + c % p == c % (10 * p)
  {
    Decompose(c, p);
    ModUnique(c, 10 * p, c / p / 10, (c / p % 10) * p + c % p);
  }

  /** Reading the n digits back gives the code modulo 10^n: the rendering loses nothing below 10^n. */
  lemma {:induction false} DigitsValue(c: nat, n: nat)
    ensures DecimalValue(Digits(c, n)) == c % Pow10(n)
  {
    if n > 0 {
      var s := Digits(c, n);
      assert s[1..] == Digits(c, n - 1);
      DigitsValue(c, n - 1);
      DigitSplit(c, Pow10(n - 1));
    }
  }

  /** Six digits render a code below 10^6 exactly: the zero-padded decimal notation of the code. */
  lemma SixDigits(c: nat)
    requires c < 1000000
    ensures DecimalValue(Digits(c, 6)) == c
  {
    DigitsValue(c, 6);
    assert Pow10(6) == 1000000;
  }

  /** The window's value as a number is DT's value plus 2^31 exactly when its top bit is set. */
  lemma WindowValue(d: seq<bv8>)
    requires |d| == 20
    ensures Window(d) as nat == DynamicTruncation(d) as nat + (if d[Offset(d)] < 0x80 then 0 else 0x8000_0000)
  {
    WindowIsTruncationIff(d);
    TopBitValue(Window(d));
  }

  /** Clearing the top bit of a word subtracts 2^31 from its value when that bit was set. */
  lemma TopBitValue(w: bv32)
    ensures w as nat == (w & 0x7FFF_FFFF) as nat + (if w & 0x7FFF_FFFF == w then 0 else 0x8000_0000)
  {
  }

  /**
   * The firmware's code is the RFC 4226 HOTP value exactly when the first window
   * byte is below 0x80: adding 2^31 always changes the value modulo 10^6.
   */
  lemma CodeIsHotpIff(d: seq<bv8>)
    requires |d| == 20
    ensures Code(d) == HotpValue(d) <==> d[Offset(d)] < 0x80
  {
    WindowValue(d);
    if d[Offset(d)] >= 0x80 {
      AddingTopBitChangesCode(DynamicTruncation(d) as nat);
    }
  }

  /** 2^31 is not a multiple of 10^6, so adding it changes every value modulo 10^6. */
  lemma AddingTopBitChangesCode(a: nat)
    ensures (a + 0x8000_0000) % 1000000 != a % 1000000
  {
    var r := a % 1000000;
    assert a == (a / 1000000) * 1000000 + r;
    assert a + 0x8000_0000 == (a / 1000000 + 2147) * 1000000 + (r + 483648);
    if r + 483648 < 1000000 {
      ModUnique(a + 0x8000_0000, 1000000, a / 1000000 + 2147, r + 483648);
    } else {
      ModUnique(a + 0x8000_0000, 1000000, a / 1000000 + 2148, r + 483648 - 1000000);
    }
  }

  /**
   * otp: HMAC-SHA1 keyed by the secret over the eight time bytes, truncated,
   * reduced modulo 10^6 and written as six ASCII digits from the right.
   */
  method ComputeOtp(password: array<bv8>, secret: seq<bv8>, time: seq<bv8>)
    requires password.Length == 6 && |secret| <= 64 && |time| == 8
    modifies password
    ensures password[..] == Digits(Code(DeviceMac(secret, time)), 6)
    ensures password[..] == Digits(Code(HmacDigest(secret, time)), 6)
  {
    var digest := Mac(secret, time);
    var p := Truncate(digest);
    var code: nat := p as nat % 1000000;  // p = p % 1000000ul, which cannot wrap
    Render(password, code);
    DeviceMacIsHmac(secret, time);
  }

  /** The first two lines of otp: an HMAC object keyed by the secret, the time bytes, the digest. */
  method Mac(secret: seq<bv8>, time: seq<bv8>) returns (digest: array<bv8>)
    requires |secret| <= 64 && |time| == 8
    ensures fresh(digest) && digest.Length == 20
    ensures digest[..] == DeviceMac(secret, time)
  {
    var hmac := new HmacSha1(secret);
    hmac.Update(time);
    digest := new bv8[20];
    hmac.Digest(secret, digest);
  }

  /** The window loop of otp: p |= digest[o + i] << (3 - i) * 8 for i = 0 .. 3. */
  method Truncate(digest: array<bv8>) returns (p: bv32)
    requires digest.Length == 20
    ensures p == Window(digest[..])
  {
    var o := Offset(digest[..]);  // digest[19] & 0x0f
    p := 0;
    for i := 0 to 4
      invariant p == WindowPrefix(digest[..], o, i)
    {
      var x := digest[o + i];
      p := p | Place(x, i);
      WindowPrefixStep(digest[..], o, i);
    }
  }

  /** Byte k of the window once i bytes are in: the digest byte, or zero while still to come. */
  function WindowByte(d: seq<bv8>, o: nat, i: nat, k: nat): bv8
    requires o + 3 < |d| && k < 4
  {
    if k < i then d[o + k] else 0
  }

  /** The value p holds after i passes of the window loop. */
  function WindowPrefix(d: seq<bv8>, o: nat, i: nat): bv32
    requires o + 3 < |d|
  {
    WordFromBytes(WindowByte(d, o, i, 0), WindowByte(d, o, i, 1), WindowByte(d, o, i, 2), WindowByte(d, o, i, 3))
  }

  /** x << (3 - i) * 8 with x widened to 32 bits: byte x at big-endian position i. */
  function Place(x: bv8, i: nat): (r: bv32)
    requires i < 4
    ensures r == WordFromBytes(if i == 0 then x else 0, if i == 1 then x else 0,
                               if i == 2 then x else 0, if i == 3 then x else 0)
  {
    if i == 0 then (x as bv32) << 24
    else if i == 1 then (x as bv32) << 16
    else if i == 2 then (x as bv32) << 8
    else x as bv32
  }

  /** One pass of the window loop ors the next byte into its place. */
  lemma WindowPrefixStep(d: seq<bv8>, o: nat, i: nat)
    requires o + 3 < |d| && i < 4
    ensures WindowPrefix(d, o, i + 1) == WindowPrefix(d, o, i) | Place(d[o + i], i)
  {
  }

  /** The digit loop of otp: password[5 - i] gets the last digit of p, which is then divided by 10. */
  method Render(password: array<bv8>, code: nat)
    requires password.Length == 6
    modifies password
    ensures password[..] == Digits(code, 6)
  {
    var p := code;
    for i := 0 to 6
      invariant p == code / Pow10(i)
      invariant password[6 - i..] == Digits(code, i)
    {
      password[5 - i] := (p % 10 + 48) as bv8;
      DivPow10Step(code, i);
      p := p / 10;
    }
  }

  /** Dividing by 10^i and then by 10 is dividing by 10^(i+1). */
  lemma DivPow10Step(c: nat, i: nat)
    ensures c / Pow10(i) / 10 == c / Pow10(i + 1)
  {
    var p := Pow10(i);
    assert Pow10(i + 1) == 10 * p;
    Decompose(c, p);
    var k, r := c / p / 10, (c / p % 10) * p + c % p;
    DivUnique(c, 10 * p, k, r);
  }

  /** A quotient is determined by any decomposition c = k * m + r with 0 <= r < m. */
  lemma DivUnique(c: nat, m: nat, k: nat, r: nat)
    requires m > 0 && c == k * m + r && r < m
    ensures c / m == k
  {
    ModUnique(c, m, k, r);
  }

  /**
   * getPassword: the 10-byte secret from EEPROM address 0, the 8 time bytes from
   * address 16, the six password digits written at address 32.
   */
  method GetPassword(eeprom: array<bv8>)
    requires eeprom.Length >= 38
    modifies eeprom
    ensures eeprom[32..38] == Digits(Code(HmacDigest(old(eeprom[..10]), old(eeprom[16..24]))), 6)
    ensures eeprom[..32] == old(eeprom[..32]) && eeprom[38..] == old(eeprom[38..])
  {
    var secret := eeprom[..10];
    var time := eeprom[16..24];
    var password := new bv8[6];
    ComputeOtp(password, secret, time);
    WriteBlock(eeprom, 32, password[..]);
  }

  /** eeprom_write_block: data copied to EEPROM from address addr on, every other byte kept. */
  method WriteBlock(eeprom: array<bv8>, addr: nat, data: seq<bv8>)
    requires addr + |data| <= eeprom.Length
    modifies eeprom
    ensures eeprom[addr..addr + |data|] == data
    ensures eeprom[..addr] == old(eeprom[..addr]) && eeprom[addr + |data|..] == old(eeprom[addr + |data|..])
  {
    forall i | 0 <= i < |data| {
      eeprom[addr + i] := data[i];
    }
  }
}
