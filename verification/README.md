# usb-otp: the password pipeline of an ATtiny85 one-time-password key

usb-otp is a USB key built on an ATtiny85. On power-up, the firmware does three things:

1. It reads a 10-byte secret and 8 time bytes from EEPROM.
2. It computes an RFC 4226 style six-digit code with its own small HMAC-SHA1.
3. It stores the code back into EEPROM.

A host script, usbmfa.py, sets the device clock and the secret over USB. It also reads the clock back.

This project models four parts, each in the form its source takes:

- **The streaming SHA-1 engine** (`class SHA1`, sha1.cpp / sha1.h). It is modelled as the class `Sha1Impl.Sha1`, with these fields:
  - the five chaining words in an array;
  - the 64-byte block buffer in an array;
  - the block index;
  - the 16-bit bit counter.

  Every method is proved against a pure FIPS 180-4 reference in module `Sha1Spec`. A ghost message, the bytes absorbed since the last reset, ties the two together:
  - the class invariant `Valid` states that the chaining words hash the whole blocks of that message;
  - it also states that the block buffer holds the remaining bytes;
  - and that the counter is the message's bit length modulo 2^16.

  `processBlock` is proved equal to the compression function, including its rolling sixteen-word schedule window. `digest` is proved to write the SHA-1 of the message with a 16-bit length field. That value is the FIPS 180-4 digest for every message under 2^16 bits. At exactly 2^16 bits the padded messages differ: the 16-bit count has wrapped to 0 (`Sha1Impl.NarrowPadWrapsAt8192`).
- **HMAC-SHA1 without a stored key** (`class HMAC_SHA1`, hmac_sha1.cpp / hmac_sha1.h). It is modelled as the class `Hmac.HmacSha1`, which wraps one engine.
  - `reset` appends the 64-byte ipad block to whatever the engine already holds; it never restarts the engine.
  - The constructor therefore relies on a freshly constructed engine.
  - `digest` is proved to compute H(K ^ opad || H(K ^ ipad || text)) on the device's hash.
  - That value equals the RFC 2104 HMAC (module `HmacSpec`) whenever the message stays under the engine's 2^16-bit limit.
- **The code computation** (`otp` and `getPassword`, main.cpp). It is modelled in module `Otp`.
  - `otp` becomes `ComputeOtp`, made of a MAC step, the window loop and the digit loop.
  - It is proved to write the six ASCII digits of the window value modulo 10^6.
  - That is the zero-padded decimal notation of the code.
  - `getPassword` is a method on an EEPROM byte array. It reads the secret at address 0 and the time at address 16, writes the digits at address 32 and changes no other byte.
- **The host-side encodings of usbmfa.py** (module `UsbMfa`):
  - the packed-BCD clock frame that `setTime` builds by appending to a list;
  - the BCD decoding in `getTime`, including the `datetime` range check that can raise `ValueError`;
  - the 42-byte secret frame of `setSecret`.

  Python integers are `int`. `bytearray`'s byte-range check and `datetime`'s range check are modelled as `ValueError` outcomes.

Firmware bytes are `bv8` and words are `bv32`. Unsigned 32-bit arithmetic and rotations therefore wrap exactly as in C. The 16-bit `mBitCount` is an `int` kept modulo 2^16.

**The code does not clear the top bit of the window.** RFC 4226 section 5.3 (DT) clears the top bit of the four-byte window; main.cpp:37-41 does not. The model follows the code:

- `Otp.Code` is the value as written;
- `Otp.HotpValue` is the RFC value;
- `Otp.CodeIsHotpIff` proves the two agree exactly when the first window byte is below 0x80.
- `Otp.RfcAppendixDCount1` works the digest of RFC 4226 Appendix D for count 1: offset 11, window 0xc1397eea, so the device's code is 770730 where the RFC's value is 287082.

**The host clock frame is one second ahead.** At second 59, `setTime` sends 0x60, second 60, and `getTime` raises `ValueError` on that byte (`UsbMfa.SecondFiftyNine`).

## Model

| member | source | states |
|---|---|---|
| Sha1Impl.CircularShift | sha1.cpp:26 | the macro is a left rotation of the 32-bit word by `bits` |
| Sha1Impl.Sha1.constructor | sha1.cpp:28-31 | a new engine is valid, has absorbed nothing, and owns fresh buffers |
| Sha1Impl.Sha1.Reset | sha1.cpp:33-42 | the hash words become the FIPS 180-4 initial value, index and bit count become 0, and the absorbed message is empty |
| Sha1Impl.Sha1.Update | sha1.cpp:76-85 | absorbing up to 255 bytes appends exactly them to the message and keeps the invariant (whole blocks compressed, index below 64, count = 8 * length mod 2^16) |
| Sha1Impl.Sha1.AbsorbByte | sha1.cpp:80-82 | one pass of update's loop appends one byte and keeps the invariant |
| Sha1Impl.Sha1.StoreByte | sha1.cpp:80-81 | the byte lands at the block index, the index grows by one and the count by 8 mod 2^16 |
| Sha1Impl.Sha1.CompleteBlock | sha1.cpp:82 | compressing the full buffer moves its bytes into the compressed blocks without changing the message |
| Sha1Impl.BitCountStep | sha1.cpp:81 | adding 8 to the 16-bit counter keeps it equal to 8 * length mod 2^16 |
| Sha1Impl.ValidState | sha1.h:47-62 | the class invariant in terms of the absorbed message: the index is its length mod 64, the buffer holds its last index bytes, the hash words hash the rest (a whole number of blocks), the counter is 8 * length mod 2^16 |
| Sha1Impl.StateDeterminedByMsg | sha1.h:56-59 | two valid engines that absorbed the same bytes have equal hash words, counts, indices and pending bytes, so split updates equal one update |
| Sha1Impl.BlockSplitUnique | sha1.h:56-59 | a message splits into whole blocks plus fewer than 64 bytes in one way only |
| Sha1Impl.Sha1.Digest | sha1.cpp:44-74 | the output is the SHA-1 of the message with the 16-bit length field, which is the FIPS 180-4 digest for messages under 8192 bytes |
| Sha1Impl.Sha1.PadBlocks | sha1.cpp:46-57 | after the 0x80 byte and zeros, the compressed blocks plus the first 56 buffer bytes plus the length field make up the padded message |
| Sha1Impl.Sha1.PadSpill | sha1.cpp:46-52 | with more than 55 bytes pending, one extra block is compressed and the buffer restarts with 56 zero bytes |
| Sha1Impl.Sha1.SpillBlock | sha1.cpp:48-50 | the pending bytes, 0x80 and zeros to 64 are compressed as one block |
| Sha1Impl.Sha1.PadInPlace | sha1.cpp:55-56 | with at most 55 bytes pending, 0x80 and zeros fill the buffer up to byte 56 |
| Sha1Impl.Sha1.FillZeros | sha1.cpp:49 | the zero loop writes zeros from the index up to the limit and leaves the rest of the buffer |
| Sha1Impl.Sha1.WriteLength | sha1.cpp:59-66 | bytes 56-61 become zero and bytes 62-63 the bit count big-endian |
| Sha1Impl.Sha1.WriteDigest | sha1.cpp:70-73 | output byte i is byte 3 - i mod 4 of hash word i / 4: the big-endian serialisation |
| Sha1Impl.NarrowPad | sha1.cpp:46-66 | the device's padding has a whole number of blocks and starts with the message |
| Sha1Impl.NarrowSha1 | sha1.cpp:44-74 | the device's digest of a message, the hash of its narrow padding serialised, is 20 bytes; NarrowPadIsPad makes it the FIPS 180-4 digest below 8192 bytes |
| Sha1Impl.NarrowPadIsPad | sha1.cpp:59-66 | below 8192 bytes the 16-bit length field gives the FIPS 180-4 padding and digest |
| Sha1Impl.NarrowPadWrapsAt8192 | sha1.h:32-33 | at 8192 bytes the counter has wrapped and the padding differs from FIPS 180-4 |
| Sha1Impl.PadZerosCount | sha1.cpp:46-57 | the number of padding zeros depends only on the pending bytes: 55 - pending, or 119 - pending when they spill |
| Sha1Impl.PadTwoBlocks | sha1.cpp:46-52 | the spilling branch produces the padded message: the compressed prefix, a whole number of blocks ending with the first padding block, then 56 zeros and the length field |
| Sha1Impl.PadOneBlock | sha1.cpp:53-57 | the in-place branch produces the padded message in one block |
| Sha1Impl.Sha1.ProcessBlock | sha1.cpp:94-179 | the hash words become the FIPS 180-4 compression of the old hash and the buffer, and the index becomes 0 |
| Sha1Impl.Sha1.LoadWords | sha1.cpp:98-105 | the sixteen window words are the block's bytes read as big-endian words |
| Sha1Impl.Sha1.AddRegisters | sha1.cpp:172-176 | each working variable is added modulo 2^32 into its hash word |
| Sha1Impl.CompressionRounds | sha1.cpp:113-170 | the five round loops compute the eighty FIPS 180-4 rounds |
| Sha1Impl.RoundConstantsAsWritten | sha1.cpp:87 | the table K holds, at t / 20, the FIPS 180-4 constant K_t of every round t below 80 |
| Sha1Impl.FirstRounds | sha1.cpp:113-121 | rounds 0-15 use Ch and K[0] on the loaded words |
| Sha1Impl.ChRounds | sha1.cpp:123-133 | rounds 16-19 use Ch and K[0] with extended schedule words |
| Sha1Impl.ParityRounds | sha1.cpp:135-145 | rounds 20-39 (and 60-79) use Parity with K[1] (K[3]) |
| Sha1Impl.MajRounds | sha1.cpp:147-158 | rounds 40-59 use Maj and K[2] |
| Sha1Impl.NextScheduleWord | sha1.cpp:125-126 | the word extendBlock computes is schedule word W[t], and storing it at t % 16 moves the window on |
| Sha1Impl.ExtendBlockIsSchedule | sha1.cpp:89-92 | extendBlock on the rolling window equals the full expansion W[t] |
| Sha1Impl.ExtendBlock | sha1.cpp:89-92 | extendBlock is the FIPS 180-4 schedule step NextWord of the words in slots (t-3), (t-8), (t-14), (t-16) mod 16 |
| Sha1Impl.ShiftedXorIsNextWord | sha1.cpp:91 | the one-bit circular shift of the xor is the FIPS 180-4 schedule step |
| Sha1Impl.WindowAdvance | sha1.cpp:126 | overwriting slot t % 16 with W[t] turns the window for round t into that for round t + 1 |
| Sha1Impl.WindowStart | sha1.cpp:98-105 | after loading, the window holds W[0] .. W[15] |
| Sha1Impl.WindowWord | sha1.cpp:91 | the window for round t holds W[s] at s % 16 for each of the sixteen rounds before t |
| Sha1Impl.SlotOfRound | sha1.cpp:126 | each round of the last sixteen owns the slot its number gives modulo 16 |
| Sha1Impl.ChAsWritten | sha1.cpp:115 | the source's or-form of Ch equals the FIPS xor-form |
| Sha1Impl.MajAsWritten | sha1.cpp:151-152 | the source's or-form of Maj equals the FIPS xor-form |
| Sha1Impl.RoundAsWritten | sha1.cpp:115-120 | one round as written (temp, then the register shift) is a FIPS 180-4 round |
| Sha1Spec.HashBlocksAppend | sha1.cpp:82 | compressing one more full block extends the hash of the whole blocks by one compression |
| Sha1Spec.LengthFieldSmall | sha1.cpp:59-66 | below 2^16 the 64-bit length field is six zero bytes and the two bytes the source writes |
| Sha1Spec.BytesBEZero | sha1.cpp:59-64 | a big-endian zero is all zero bytes |
| HmacSpec.PaddedKey | hmac_sha1.h:36 | a key of at most 64 bytes padded with zeros to the block length keeps its bytes and is zero after them |
| HmacSpec.XorPadAt | hmac_sha1.cpp:35 | byte i of the xored key is key[i] ^ pad |
| HmacSpec.XorPadPrefix | hmac_sha1.cpp:33-37 | one more key byte absorbed gives one more xored byte |
| Hmac.KeyBlock | hmac_sha1.cpp:31-40 | the 64 bytes reset feeds (key[i] ^ pad, then the bare pad byte) are the zero-padded key xored with the pad |
| Hmac.Repeat | hmac_sha1.cpp:38-39 | the second key loop feeds n bytes, each of them the pad byte |
| Hmac.KeyBlocksDiffer | hmac_sha1.cpp:23-24 | with ipad 0x36 and opad 0x5c the inner and outer key blocks differ in every one of their 64 bytes |
| Hmac.XorPadZeros | hmac_sha1.cpp:38-39 | feeding the bare pad byte is xoring a zero key byte with the pad |
| Hmac.DeviceMac | hmac_sha1.cpp:47-61 | the device's MAC, the outer hash of the opad block and the inner hash, is 20 bytes; DeviceMacIsHmac makes it RFC 2104 HMAC-SHA1 |
| Hmac.DeviceMacIsHmac | hmac_sha1.cpp:47-61 | the device's construction equals RFC 2104 HMAC-SHA1 while the inner message stays under 2^16 bits |
| Hmac.HmacState | hmac_sha1.h:40-50 | the object holds no key: two valid objects whose engines absorbed the same bytes have the same hash words, count and index, the index being the length mod 64 |
| Hmac.OneBlockAbsorbed | hmac_sha1.cpp:26-29 | after exactly one block the engine has count 512, index 0 and one compression from the initial value |
| Hmac.HmacSha1.constructor | hmac_sha1.cpp:26-29 | a fresh engine then the ipad block: the engine holds exactly K ^ ipad, count 512, index 0 |
| Hmac.HmacSha1.Reset | hmac_sha1.cpp:31-40 | reset appends the ipad block to what the engine holds, without restarting it |
| Hmac.HmacSha1.AbsorbKey | hmac_sha1.cpp:52-58 | the two loops shared by reset and digest append the key block for the given pad |
| Hmac.HmacSha1.AbsorbXoredKey | hmac_sha1.cpp:33-37 | the first loop appends key[i] ^ pad for every key byte |
| Hmac.HmacSha1.AbsorbPadBytes | hmac_sha1.cpp:38-39 | the second loop appends the bare pad byte 64 - length times, or none when that is negative |
| Hmac.HmacSha1.Update | hmac_sha1.cpp:42-45 | the text is appended unchanged to the engine's message |
| Hmac.HmacSha1.Digest | hmac_sha1.cpp:47-62 | the output is the outer hash of the opad block and the inner hash of everything absorbed |
| Otp.Offset | main.cpp:35 | the offset is at most 15, so the four window reads stay inside the 20-byte digest |
| Otp.Window | main.cpp:37-41 | the word's four bytes, most significant first, are digest[o] .. digest[o+3] |
| Otp.DynamicTruncation | main.cpp:37-41 | RFC 4226 DT is below 2^31 |
| Otp.WindowIsTruncationIff | main.cpp:37-41 | the unmasked window equals DT exactly when digest[o] is below 0x80 |
| Otp.WindowValue | main.cpp:37-41 | the window's value is DT's value plus 2^31 exactly when digest[o] has its top bit set |
| Otp.CodeIsHotpIff | main.cpp:37-42 | the device's code equals the RFC 4226 six-digit value exactly when digest[o] is below 0x80 |
| Otp.RfcAppendixDCount1 | main.cpp:35-42 | on the RFC 4226 Appendix D digest for count 1 the offset is 11 and the window 0xc1397eea, so the code is 770730 where HOTP gives 287082 |
| Otp.AddingTopBitChangesCode | main.cpp:42 | adding 2^31 always changes a value modulo 10^6 |
| Otp.Code | main.cpp:42 | the code is below 10^6 |
| Otp.Digits | main.cpp:44-47 | n rendered digits are n bytes, each an ASCII digit |
| Otp.DigitChar | main.cpp:45 | a digit value below 10 maps to ASCII '0' .. '9' with the matching value |
| Otp.DigitsValue | main.cpp:44-47 | reading n rendered digits back gives the code modulo 10^n |
| Otp.SixDigits | main.cpp:44-47 | six digits read most significant first denote the code exactly |
| Otp.ComputeOtp | main.cpp:27-48 | the password is the six digits of the code of the HMAC-SHA1 of the time bytes under the secret, as the device and as RFC 2104 define it |
| Otp.Mac | main.cpp:29-33 | a fresh 20-byte digest holding the device's HMAC of the eight time bytes |
| Otp.Truncate | main.cpp:35-41 | the window loop yields the four digest bytes from the offset as a big-endian word |
| Otp.Place | main.cpp:39-40 | x << (3 - i) * 8 is the word with x as big-endian byte i and zero in the other three bytes |
| Otp.WindowPrefixStep | main.cpp:39-40 | one pass of the window loop ors the next byte into its big-endian place |
| Otp.Render | main.cpp:44-47 | the digit loop writes the six digits of the code from the right |
| Otp.DivPow10Step | main.cpp:46 | dividing by 10 once more turns p = code / 10^i into code / 10^(i+1) |
| Otp.GetPassword | main.cpp:50-62 | EEPROM 32..38 receives the password for the secret at 0..10 and the time at 16..24, and every other byte is kept |
| Otp.WriteBlock | main.cpp:61 | the block lands at the address and no other byte changes |
| UsbMfa.DaysInMonth | usbmfa.py:57 | every month has 28 to 31 days |
| UsbMfa.MakeDateTime | usbmfa.py:57 | datetime succeeds exactly for in-range fields and then holds them; otherwise ValueError |
| UsbMfa.Field | usbmfa.py:50-55 | a decoded field is at most 15 + 10 * mask, and a byte below 16 decodes to itself |
| UsbMfa.GetTime | usbmfa.py:42-57 | decodes bytes 1-3 and 5-7 with tens masks 7, 7, 3, 3, 1, 15; a result is a valid datetime with year 2000 .. 2165, and ValueError otherwise; inverse of TimeFrame by SetThenGet |
| UsbMfa.GetTimeUnreadBytes | usbmfa.py:50-57 | bytes 0, 4 and 8 are not read: changing them leaves the result unchanged |
| UsbMfa.FrameDecodes | usbmfa.py:50-57 | getTime builds the datetime from the six decoded fields, year plus 2000 |
| UsbMfa.TruncTenth | usbmfa.py:68-75 | int(v / 10) truncates toward zero: v - 10 * q lies in 0 .. 9 for v >= 0 and in -9 .. 0 for v < 0 |
| UsbMfa.Bcd | usbmfa.py:68-75 | the packed value's low nibble is Python's v % 10 and its high part int(v / 10) |
| UsbMfa.BcdRoundTrip | usbmfa.py:50-55 | a value whose tens fit the field's mask packs into a byte and unpacks to itself |
| UsbMfa.FrameField | usbmfa.py:50-55 | a frame byte holding a packed value unpacks to that value |
| UsbMfa.FrameFields | usbmfa.py:66-77 | each clock byte of the time frame unpacks to its field |
| UsbMfa.TimeFrame | usbmfa.py:66-77 | the frame has nine elements: command 2 first, the weekday plus 1 at index 4, 3 last |
| UsbMfa.ToBytes | usbmfa.py:78 | bytes(bytearray(d)) succeeds exactly when every element is a byte, and keeps them |
| UsbMfa.SetTime | usbmfa.py:59-78 | the appended list converted to bytes is the time frame converted to bytes |
| UsbMfa.TimeFrameBytesIff | usbmfa.py:66-78 | the frame converts without ValueError exactly for years 1991 to 2159 |
| UsbMfa.YearByte | usbmfa.py:75-76 | the packed two-digit year is a byte exactly for year - 2000 in -9 .. 159 |
| UsbMfa.BcdByte | usbmfa.py:68-74 | every field value below 160 packs into a byte |
| UsbMfa.SetThenGet | usbmfa.py:50-77 | reading back the frame setTime sends gives the clock time one second ahead, for years 2000-2099 and seconds 0-58 |
| UsbMfa.SecondFiftyNine | usbmfa.py:67-68 | at second 59 the frame carries 0x60 and getTime raises ValueError |
| UsbMfa.SecretFrame | usbmfa.py:90-92 | keys over 40 bytes raise ValueError; otherwise the frame is 42 bytes starting with 3 and the key length |
| UsbMfa.SecretFrameRoundTrip | usbmfa.py:91-92 | the frame is ValueError exactly for keys over 40 bytes; otherwise it is 42 bytes, starts with 3 and the length, carries the key and is zero after it |

## Left out

- USB transfers (`connect`, `ctrl_transfer` in usbmfa.py) are left out. `getTime` is modelled on the nine bytes it reads. `setTime` and `setSecret` are modelled up to the bytes they would send.
- Library calls in usbmfa.py are not modelled:
  - the base32 decoding of the secret; `SecretFrame` starts from the decoded key bytes;
  - `datetime.utcnow()` and `weekday()`; the clock reading and its weekday are parameters of `SetTime`.
- The keystroke output, the conversion of the external clock's time into a 30-second counter and the persisted monotonic counter are not part of this model. main.cpp, the firmware modelled here, computes one password from the eight time bytes stored in EEPROM and stores it.
- The scripts usb-otp.py, set_secret.py, set_time.py, set_clock.py and compare_time.py are not part of this model. They repeat usbmfa.py's encodings or only call it.
- `eeprom_read_block` and `eeprom_write_block` are slices of an EEPROM byte array and `WriteBlock`. `main`'s `_delay_ms` loop is not modelled.
- `PROGMEM` placement of `K`, `ipad` and `opad` is not modelled; they are plain constants.
- Sha1Impl.Sha1.ProcessBlock: keeps the schedule in its own sixteen-word array. The source aliases `mBlock` as `W` by casting its address. The method therefore says nothing about the block buffer's contents afterwards; the source leaves schedule words there, and they are always overwritten before they are read.
- Sha1Impl.Sha1.Digest: leaves the engine well-formed but not valid, with the block buffer unspecified. As in the source, a new message needs `Reset`.
- Hmac.HmacSha1.Digest: does not state the engine's state afterwards. The source leaves it holding a finished outer hash.
- Hmac.HmacSha1.Reset: requires a key of at most 64 bytes, as hmac_sha1.h demands of callers. For longer keys the source's pad loop runs zero times and the result is not an HMAC; this case is not modelled.
- Sha1Impl.Sha1.Update: requires at most 255 bytes per call, the range of the `uint8_t` length. It takes the bytes as a sequence, not as an address and a length.
- Otp.ComputeOtp: takes the secret as a sequence, not as an address and a length. `p % 1000000` is taken on the unsigned value as a natural number, which is the same number.
- Otp.Truncate: writes `x << (3 - i) * 8` as one shift per loop position (`Place`), the same value for i = 0 .. 3.
- The model splits some source functions into several methods; each method keeps the source's statements in order:
  - `processBlock` into its loading loop, the five round loops and the feed-forward;
  - `digest` into its padding branches, the length bytes and the output loop;
  - the two key loops shared by `reset` and `digest` into `AbsorbKey`;
  - `otp` into `Mac`, `Truncate` and `Render`.
- UsbMfa.Bcd: writes `(int(v/10) << 4) | (v % 10)` as `TruncTenth(v) * 16 + v % 10`. The shift leaves the low four bits clear and `v % 10` is below 16, so the or is an addition, also for negative values.
