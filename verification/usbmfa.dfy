/**
 * The byte-level encodings of the host script usbmfa.py: the packed-BCD clock
 * frame setTime sends, the decoding getTime applies to the clock bytes it
 * reads, and the frame setSecret sends. Values are Python integers; a frame
 * element outside 0 .. 255 makes bytearray raise ValueError, and so does an
 * out-of-range field given to datetime.datetime.
 */
module UsbMfa {

  datatype Outcome<T> = Success(value: T) | ValueError

  /** The fields of a datetime.datetime, from the year down to the second. */
  datatype DateTime = DateTime(year: int, month: int, day: int, hour: int, minute: int, second: int)

  predicate IsByte(x: int)
  {
    0 <= x < 256
  }

  predicate AllBytes(s: seq<int>)
  {
    forall i :: 0 <= i < |s| ==> IsByte(s[i])
  }

  /** Leap years of the proleptic Gregorian calendar datetime uses. */
  predicate IsLeap(y: int)
  {
    y % 4 == 0 && (y % 100 != 0 || y % 400 == 0)
  }

  function DaysInMonth(y: int, m: int): (n: int)
    requires 1 <= m <= 12
    ensures 28 <= n <= 31
  {
    if m == 2 then (if IsLeap(y) then 29 else 28)
    else if m == 4 || m == 6 || m == 9 || m == 11 then 30
    else 31
  }

  /** The ranges datetime.datetime accepts. */
  predicate ValidDateTime(t: DateTime)
  {
    && 1 <= t.year <= 9999
    && 1 <= t.month <= 12
    && 1 <= t.day <= DaysInMonth(t.year, t.month)
    && 0 <= t.hour < 24
    && 0 <= t.minute < 60
    && 0 <= t.second < 60
  }

  /** datetime.datetime(year, month, day, hour, minute, second): ValueError outside its ranges. */
  function MakeDateTime(year: int, month: int, day: int, hour: int, minute: int, second: int): (r: Outcome<DateTime>)
    ensures r.Success? <==> ValidDateTime(DateTime(year, month, day, hour, minute, second))
    ensures r.Success? ==> r.value == DateTime(year, month, day, hour, minute, second)
  {
    var t := DateTime(year, month, day, hour, minute, second);
    if ValidDateTime(t) then Success(t) else ValueError
  }

  /**
   * One clock field of getTime: the ones from the low nibble of b, the tens from
   * the high nibble masked with tensMask, that is (b & 0xf) + (b >> 4 & tensMask) * 10.
   */
  function Field(b: int, tensMask: int): (v: int)
    requires IsByte(b)
    requires tensMask == 0x1 || tensMask == 0x3 || tensMask == 0x7 || tensMask == 0xF
    ensures 0 <= v <= 15 + 10 * tensMask
    ensures b < 16 ==> v == b
  {
    b % 16 + (b / 16) % (tensMask + 1) * 10
  }

  /**
   * getTime on the nine bytes read from the device: seconds, minutes and hours
   * in bytes 1 to 3, day, month and year (from 2000) in bytes 5 to 7; bytes 0,
   * 4 and 8 are not read.
   */
  function GetTime(ba: seq<int>): (r: Outcome<DateTime>)
    requires |ba| == 9 && AllBytes(ba)
    ensures r.Success? ==> ValidDateTime(r.value) && 2000 <= r.value.year <= 2165
  {
    var sec := Field(ba[1], 0x7);
    var minu := Field(ba[2], 0x7);
    var hr := Field(ba[3], 0x3);
    var day := Field(ba[5], 0x3);
    var mnth := Field(ba[6], 0x1);
    var yr := Field(ba[7], 0xF) + 2000;
    MakeDateTime(yr, mnth, day, hr, minu, sec)
  }

  /** int(v / 10): true division, then truncation toward zero. */
  function TruncTenth(v: int): (q: int)
    ensures v >= 0 ==> 0 <= v - 10 * q < 10
    ensures v < 0 ==> -10 < v - 10 * q <= 0
  {
    if v >= 0 then v / 10 else -((-v) / 10)
  }

  /**
   * (int(v / 10) << 4) | (v % 10), with Python's floored %. The shift multiplies
   * by 16 and leaves the low four bits clear, and v % 10 < 16, so the or adds.
   */
  function Bcd(v: int): (b: int)
    ensures b % 16 == v % 10 && b / 16 == TruncTenth(v)
  {
    Nibbles(TruncTenth(v), v % 10);
    TruncTenth(v) * 16 + v % 10
  }

  /** The high and low nibbles of q * 16 + r, for a low nibble r. */
  lemma Nibbles(q: int, r: int)
    requires 0 <= r < 16
    ensures (q * 16 + r) % 16 == r && (q * 16 + r) / 16 == q
  {
  }

  /** Packing a value whose tens fit the mask and unpacking it with that mask gives the value back. */
  lemma BcdRoundTrip(v: int, tensMask: int)
    requires tensMask == 0x1 || tensMask == 0x3 || tensMask == 0x7 || tensMask == 0xF
    requires 0 <= v && v / 10 <= tensMask
    ensures IsByte(Bcd(v)) && Field(Bcd(v), tensMask) == v
  {
    var b, q := Bcd(v), v / 10;
    assert b == q * 16 + v % 10;
    Nibbles(q, v % 10);
    SmallRemainder(q, tensMask + 1);
    assert Field(b, tensMask) == v % 10 + q * 10;
  }

  /** A remainder of a value below the divisor is the value itself. */
  lemma SmallRemainder(q: int, n: int)
    requires 0 <= q < n
    ensures q % n == q
  {
  }

  /**
   * The list setTime builds for time t whose weekday() is weekday: the command
   * byte 2, the packed second one ahead of the clock, minute and hour, the
   * weekday counted from 1, the packed day, month and two-digit year, and 3.
   */
  function TimeFrame(t: DateTime, weekday: int): (d: seq<int>)
    ensures |d| == 9 && d[0] == 2 && d[4] == weekday + 1 && d[8] == 3
  {
    [2, Bcd(t.second + 1), Bcd(t.minute), Bcd(t.hour), weekday + 1,
     Bcd(t.day), Bcd(t.month), Bcd(t.year - 2000), 3]
  }

  /** bytes(bytearray(d)): ValueError unless every element is a byte. */
  function ToBytes(d: seq<int>): (r: Outcome<seq<int>>)
    ensures r.Success? <==> AllBytes(d)
    ensures r.Success? ==> r.value == d
  {
    if AllBytes(d) then Success(d) else ValueError
  }

  /**
   * setTime without the transfer: the frame appended field by field, then
   * converted to bytes. The clock reading and its weekday are parameters.
   */
  method SetTime(t: DateTime, weekday: int) returns (b: Outcome<seq<int>>)
    requires ValidDateTime(t) && 0 <= weekday <= 6
    ensures b == ToBytes(TimeFrame(t, weekday))
  {
    var d := [2];
    var sec := t.second + 1;
    d := d + [Bcd(sec)];
    d := d + [Bcd(t.minute)];
    d := d + [Bcd(t.hour)];
    d := d + [weekday + 1];
    d := d + [Bcd(t.day)];
    d := d + [Bcd(t.month)];
    var y := t.year - 2000;
    d := d + [Bcd(y)];
    d := d + [3];
    AppendedNine(2, Bcd(sec), Bcd(t.minute), Bcd(t.hour), weekday + 1, Bcd(t.day), Bcd(t.month), Bcd(y), 3);
    b := ToBytes(d);
  }

  /** Nine single appends to an empty list build the nine-element list. */
  lemma AppendedNine(x0: int, x1: int, x2: int, x3: int, x4: int, x5: int, x6: int, x7: int, x8: int)
    ensures [x0] + [x1] + [x2] + [x3] + [x4] + [x5] + [x6] + [x7] + [x8] == [x0, x1, x2, x3, x4, x5, x6, x7, x8]
  {
  }

  /** Only the two-digit year can leave the byte range: the frame converts exactly for years 1991 to 2159. */
  lemma TimeFrameBytesIff(t: DateTime, weekday: int)
    requires ValidDateTime(t) && 0 <= weekday <= 6
    ensures AllBytes(TimeFrame(t, weekday)) <==> 1991 <= t.year <= 2159
  {
    var d := TimeFrame(t, weekday);
    YearByte(t.year - 2000);
    if 1991 <= t.year <= 2159 {
      forall i | 0 <= i < 9
        ensures IsByte(d[i])
      {
        if i == 1 || i == 2 || i == 3 || i == 5 || i == 6 {
          BcdByte(if i == 1 then t.second + 1 else if i == 2 then t.minute else if i == 3 then t.hour
                  else if i == 5 then t.day else t.month);
        }
      }
    } else {
      assert !IsByte(d[7]);
    }
  }

  /** The packed two-digit year is a byte exactly for -9 <= y <= 159. */
  lemma YearByte(y: int)
    ensures IsByte(Bcd(y)) <==> -9 <= y <= 159
  {
    if y >= 0 {
      assert Bcd(y) == (y / 10) * 16 + y % 10;
    } else if y >= -9 {
      assert TruncTenth(y) == 0;
    } else {
      assert TruncTenth(y) <= -1;
    }
  }

  /** A non-negative value below 160 packs into a byte. */
  lemma BcdByte(v: int)
    requires 0 <= v < 160
    ensures IsByte(Bcd(v))
  {
    assert Bcd(v) == (v / 10) * 16 + v % 10;
  }

  /**
   * Reading back what setTime sent gives the clock time one second ahead, for
   * years 2000 to 2099 and any second but the last of a minute.
   */
  lemma SetThenGet(t: DateTime, weekday: int)
    requires ValidDateTime(t) && 0 <= weekday <= 6
    requires 2000 <= t.year <= 2099 && t.second < 59
    ensures AllBytes(TimeFrame(t, weekday))
    ensures GetTime(TimeFrame(t, weekday)) == Success(t.(second := t.second + 1))
  {
    var d := TimeFrame(t, weekday);
    TimeFrameBytesIff(t, weekday);
    FrameFields(t, weekday);
    FrameDecodes(d, t.year, t.month, t.day, t.hour, t.minute, t.second + 1);
  }

  /** Each clock field of the frame unpacks to the value packed into it. */
  lemma FrameFields(t: DateTime, weekday: int)
    requires 0 <= t.second + 1 < 60 && 0 <= t.minute < 60 && 0 <= t.hour < 24
    requires 1 <= t.day <= 31 && 1 <= t.month <= 12 && 2000 <= t.year <= 2099
    ensures var d := TimeFrame(t, weekday);
      && IsByte(d[1]) && IsByte(d[2]) && IsByte(d[3]) && IsByte(d[5]) && IsByte(d[6]) && IsByte(d[7])
      && Field(d[1], 0x7) == t.second + 1 && Field(d[2], 0x7) == t.minute && Field(d[3], 0x3) == t.hour
      && Field(d[5], 0x3) == t.day && Field(d[6], 0x1) == t.month && Field(d[7], 0xF) + 2000 == t.year
  {
    var d := TimeFrame(t, weekday);
    FrameElements(t, weekday);
    FrameField(d, 1, t.second + 1, 0x7);
    FrameField(d, 2, t.minute, 0x7);
    FrameField(d, 3, t.hour, 0x3);
    FrameField(d, 5, t.day, 0x3);
    FrameField(d, 6, t.month, 0x1);
    FrameField(d, 7, t.year - 2000, 0xF);
  }

  /** The packed fields of the frame, element by element. */
  lemma FrameElements(t: DateTime, weekday: int)
    ensures var d := TimeFrame(t, weekday);
      && d[1] == Bcd(t.second + 1) && d[2] == Bcd(t.minute) && d[3] == Bcd(t.hour)
      && d[5] == Bcd(t.day) && d[6] == Bcd(t.month) && d[7] == Bcd(t.year - 2000)
  {
  }

  /** A frame byte holding a packed value unpacks, with a mask its tens fit, to that value. */
  lemma FrameField(d: seq<int>, k: nat, v: int, tensMask: int)
    requires tensMask == 0x1 || tensMask == 0x3 || tensMask == 0x7 || tensMask == 0xF
    requires k < |d| && d[k] == Bcd(v) && 0 <= v < 10 * (tensMask + 1)
    ensures IsByte(d[k]) && Field(d[k], tensMask) == v
  {
    assert v / 10 <= tensMask;
    BcdRoundTrip(v, tensMask);
  }

  /** getTime's result in terms of the six decoded fields. */
  lemma FrameDecodes(ba: seq<int>, year: int, month: int, day: int, hour: int, minute: int, second: int)
    requires |ba| == 9 && AllBytes(ba)
    requires Field(ba[1], 0x7) == second && Field(ba[2], 0x7) == minute && Field(ba[3], 0x3) == hour
    requires Field(ba[5], 0x3) == day && Field(ba[6], 0x1) == month && Field(ba[7], 0xF) + 2000 == year
    ensures GetTime(ba) == MakeDateTime(year, month, day, hour, minute, second)
  {
  }

  /** getTime never reads bytes 0, 4 and 8: changing them leaves its result alone. */
  lemma GetTimeUnreadBytes(ba: seq<int>, x0: int, x4: int, x8: int)
    requires |ba| == 9 && AllBytes(ba) && IsByte(x0) && IsByte(x4) && IsByte(x8)
    ensures AllBytes(ba[0 := x0][4 := x4][8 := x8])
    ensures GetTime(ba[0 := x0][4 := x4][8 := x8]) == GetTime(ba)
  {
    var ba' := ba[0 := x0][4 := x4][8 := x8];
    assert ba'[1] == ba[1] && ba'[2] == ba[2] && ba'[3] == ba[3];
    assert ba'[5] == ba[5] && ba'[6] == ba[6] && ba'[7] == ba[7];
  }

  /** At second 59 setTime sends 0x60, second 60, which getTime's datetime call rejects. */
  lemma SecondFiftyNine(t: DateTime, weekday: int)
    requires ValidDateTime(t) && 0 <= weekday <= 6
    requires 2000 <= t.year <= 2099 && t.second == 59
    ensures TimeFrame(t, weekday)[1] == 0x60
    ensures AllBytes(TimeFrame(t, weekday)) && GetTime(TimeFrame(t, weekday)) == ValueError
  {
    TimeFrameBytesIff(t, weekday);
    BcdRoundTrip(60, 0x7);
  }

  /**
   * setSecret without the base32 decoding and the transfer: ValueError for a
   * key over 40 bytes, otherwise the command byte 3, the key length, the key
   * and zeros up to 40 key positions.
   */
  function SecretFrame(k: seq<int>): (r: Outcome<seq<int>>)
    requires AllBytes(k)
    ensures |k| > 40 ==> r == ValueError
    ensures r.Success? ==> |r.value| == 42 && r.value[..2] == [3, |k|]
  {
    if |k| > 40 then ValueError
    else ToBytes([3, |k|] + k + seq(40 - |k|, _ => 0))
  }

  /** The key a secret frame carries: length byte 1, key from byte 2 on. */
  function KeyOfFrame(f: seq<int>): seq<int>
    requires |f| == 42 && 0 <= f[1] <= 40
  {
    f[2..2 + f[1]]
  }

  /** A key of at most 40 bytes always gives a 42-byte frame from which it can be read back. */
  lemma SecretFrameRoundTrip(k: seq<int>)
    requires AllBytes(k)
    ensures SecretFrame(k).Success? <==> |k| <= 40
    ensures SecretFrame(k).Success? ==>
      && |SecretFrame(k).value| == 42
      && SecretFrame(k).value[..2] == [3, |k|]
      && KeyOfFrame(SecretFrame(k).value) == k
      && forall i :: 2 + |k| <= i < 42 ==> SecretFrame(k).value[i] == 0
  {
    if |k| <= 40 {
      var f := [3, |k|] + k + seq(40 - |k|, _ => 0);
      assert AllBytes(f) by {
        forall i | 0 <= i < |f|
          ensures IsByte(f[i])
        {
          if 2 <= i < 2 + |k| {
            assert f[i] == k[i - 2];
          }
        }
      }
      assert f[2..2 + |k|] == k;
    }
  }
}
