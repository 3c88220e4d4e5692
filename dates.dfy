/** The lenient date and time parsers: `str_to_ts`, `str_to_time_st`, `str_to_date`
    and `str_to_time_as_long` pick the digits out of whatever text the server or
    the application supplied and read fields from them. */
module DateParse {
  import opened Common

  function DigitChar(n: nat): (c: char)
    requires n < 10
    ensures IsDigit(c) && Digit(c) == n
  {
    ('0' as int + n) as char
  }

  /** Two digits of a buffer read as a number. */
  function Pair(b: string, i: nat): int
    requires i + 1 < |b|
  {
    Digit(b[i]) * 10 + Digit(b[i + 1])
  }

  /** `SQLUSMALLINT` narrowing. */
  function UShort(x: int): (r: nat)
    ensures r < 0x1_0000
    ensures 0 <= x < 0x1_0000 ==> r == x
  {
    x % 0x1_0000
  }

  /** The digits a C string holds, in order, up to `cap` of them: the scan stops at
      the terminator, at the end, or when the buffer is full. */
  function DigitsOf(s: string, cap: nat): (d: string)
    ensures |d| <= cap
    ensures forall k :: 0 <= k < |d| ==> IsDigit(d[k])
  {
    if |s| == 0 || s[0] == '\0' || cap == 0 then []
    else if IsDigit(s[0]) then [s[0]] + DigitsOf(s[1..], cap - 1)
    else DigitsOf(s[1..], cap)
  }

  /** The digit-collecting loop of `str_to_ts` and `str_to_time_st`: the digits of
      `str`, up to `cap`, at the front of the buffer; the rest of it untouched. */
  method CollectDigits(str: string, buff: array<char>, cap: nat) returns (len: nat)
    requires cap <= buff.Length
    modifies buff
    ensures len == |DigitsOf(str, cap)| && buff[..len] == DigitsOf(str, cap)
    ensures forall k :: len <= k < buff.Length ==> buff[k] == old(buff[k])
  {
    len := 0;
    var i := 0;
    while i < |str| && str[i] != '\0' && len < cap
      invariant 0 <= i <= |str| && 0 <= len <= cap
      invariant buff[..len] + DigitsOf(str[i..], cap - len) == DigitsOf(str, cap)
      invariant forall k :: len <= k < buff.Length ==> buff[k] == old(buff[k])
    {
      assert str[i..][0] == str[i] && str[i..][1..] == str[i + 1..];
      if IsDigit(str[i]) {
        buff[len] := str[i];
        assert buff[..len + 1] == buff[..len] + [str[i]];
        len := len + 1;
      }
      i := i + 1;
    }
    assert DigitsOf(str[i..], cap - len) == [];
  }

  // ---------------------------------------------------------------- str_to_ts

  /** `SQL_TIMESTAMP_STRUCT`. */
  datatype Timestamp = Timestamp(year: int, month: int, day: int, hour: int, minute: int,
                                 second: int, fraction: int)

  /** The century a two-digit year gets: 20xx up to a first digit of 6, else 19xx. */
  function Century(first: char): string
  {
    if first <= '6' then "20" else "19"
  }

  /** The digits with a century put in front of a six- or twelve-digit
      (YYMMDD, YYMMDDhhmmss) string. */
  function Widened(d: string): (w: string)
    requires |d| <= 14
    ensures |w| <= 14
  {
    if |d| == 6 || |d| == 12 then Century(d[0]) + d else d
  }

  /** The fourteen digits `str_to_ts` reads its fields from: the widened digits,
      then '0' for every digit missing. */
  function TsBuffer(str: string): (b: string)
    ensures |b| == 14
  {
    var w := Widened(DigitsOf(str, 14));
    w + seq(14 - |w|, _ => '0')
  }

  /** What `str_to_ts` yields: `None` where it returns 1 (a month or day of "00"
      without `zeroToMin`); otherwise the fields of the buffer, a "00" month or day
      read as 01, and fraction 0. */
  function TsFromText(str: string, zeroToMin: bool): Option<Timestamp>
  {
    var b := TsBuffer(str);
    var zeroMonth := b[4] == '0' && b[5] == '0';
    var zeroDay := b[6] == '0' && b[7] == '0';
    if (zeroMonth || zeroDay) && !zeroToMin then None
    else
      Some(Timestamp(Digit(b[0]) * 1000 + Digit(b[1]) * 100 + Digit(b[2]) * 10 + Digit(b[3]),
                     if zeroMonth then 1 else Pair(b, 4), if zeroDay then 1 else Pair(b, 6),
                     Pair(b, 8), Pair(b, 10), Pair(b, 12), 0))
  }

  /** `bmove_upp` by two and the century: a buffer holding the digits `d` (six or
      twelve of them) at its front afterwards holds `Widened(d)`. */
  method WidenInPlace(buff: array<char>, len: nat)
    requires 2 <= len && len + 2 <= buff.Length
    modifies buff
    ensures buff[..len + 2] == Century(old(buff[0])) + old(buff[..len])
    ensures forall k :: len + 2 <= k < buff.Length ==> buff[k] == old(buff[k])
  {
    ghost var d := buff[..len];
    var j := len;
    while j > 0
      invariant 0 <= j <= len && buff[0] == d[0]
      invariant forall k :: 0 <= k < j ==> buff[k] == d[k]
      invariant forall k :: j + 2 <= k < len + 2 ==> buff[k] == d[k - 2]
      invariant forall k :: len + 2 <= k < buff.Length ==> buff[k] == old(buff[k])
    {
      j := j - 1;
      buff[j + 2] := buff[j];
    }
    if buff[0] <= '6' {
      buff[0] := '2';
      buff[1] := '0';
    } else {
      buff[0] := '1';
      buff[1] := '9';
    }
    assert buff[..len + 2] == Century(d[0]) + d;
  }

  /** The buffer of `str_to_ts` before its fields are read: the digits collected,
      widened, padded with '0' to fourteen, and terminated. */
  method TsDigits(str: string) returns (buff: array<char>)
    ensures fresh(buff) && buff.Length == 15 && buff[..14] == TsBuffer(str)
  {
    buff := new char[15];
    var len := CollectDigits(str, buff, 14);
    ghost var d := buff[..len];
    if len == 6 || len == 12 {
      WidenInPlace(buff, len);
      len := len + 2;
    }
    assert buff[..len] == Widened(d);
    var k := len;
    while k < 14
      invariant len <= k <= 14
      invariant buff[..len] == Widened(d)
      invariant forall p :: len <= p < k ==> buff[p] == '0'
    {
      buff[k] := '0';
      k := k + 1;
    }
    buff[14] := '\0';
    assert buff[..14] == Widened(d) + seq(14 - len, _ => '0');
  }

  /** `str_to_ts`: reads the year, checks month and day for "00", and reads the
      fields. */
  method StrToTs(str: string, zeroToMin: bool) returns (failed: bool, ts: Timestamp)
    ensures failed <==> TsFromText(str, zeroToMin).None?
    ensures !failed ==> ts == TsFromText(str, zeroToMin).value
  {
    var buff := TsDigits(str);
    ghost var b := buff[..14];
    var year := Digit(buff[0]) * 1000 + Digit(buff[1]) * 100 + Digit(buff[2]) * 10 + Digit(buff[3]);
    var zeroMonth := buff[4] == '0' && buff[5] == '0';
    var zeroDay := buff[6] == '0' && buff[7] == '0';
    if zeroMonth || zeroDay {
      if !zeroToMin {
        return true, Timestamp(0, 0, 0, 0, 0, 0, 0);  // not written
      }
      if zeroMonth {
        buff[5] := '1';
      }
      if zeroDay {
        buff[7] := '1';
      }
    }
    failed := false;
    ts := Timestamp(year, Digit(buff[4]) * 10 + Digit(buff[5]), Digit(buff[6]) * 10 + Digit(buff[7]),
                    Digit(buff[8]) * 10 + Digit(buff[9]), Digit(buff[10]) * 10 + Digit(buff[11]),
                    Digit(buff[12]) * 10 + Digit(buff[13]), 0);
    assert ts.month == (if zeroMonth then 1 else Pair(b, 4));
    assert ts.day == (if zeroDay then 1 else Pair(b, 6));
  }

  /** A six- or twelve-digit string gets a century: the year is 2000 plus its first
      two digits when the first is at most 6, 1900 plus them otherwise. */
  lemma TwoDigitYearWindow(str: string, zeroToMin: bool)
    requires |DigitsOf(str, 14)| in {6, 12} && TsFromText(str, zeroToMin).Some?
    ensures var d := DigitsOf(str, 14);
      TsFromText(str, zeroToMin).value.year == (if d[0] <= '6' then 2000 else 1900) + Pair(d, 0)
  {
  }

  /** Digits the text does not supply read as '0': with at most eight digits (a
      date alone) the time is midnight; the fraction is always 0. */
  lemma MissingDigitsZero(str: string, zeroToMin: bool)
    ensures var w := Widened(DigitsOf(str, 14));
      forall k :: |w| <= k < 14 ==> TsBuffer(str)[k] == '0'
    ensures var r := TsFromText(str, zeroToMin);
      && (r.Some? ==> r.value.fraction == 0)
      && (r.Some? && |Widened(DigitsOf(str, 14))| <= 8 ==>
            r.value.hour == 0 && r.value.minute == 0 && r.value.second == 0)
  {
  }

  /** The buffer holds digits only. */
  lemma TsBufferDigits(str: string)
    ensures forall k :: 0 <= k < 14 ==> IsDigit(TsBuffer(str)[k])
  {
    var d := DigitsOf(str, 14);
    var w := Widened(d);
    assert forall k :: 0 <= k < |w| ==> IsDigit(w[k]);
  }

  /** `str_to_ts` fails exactly on a "00" month or day without `zeroToMin`; a
      timestamp it yields has a month and a day from 1 to 99, a four-digit year, and
      two-digit time fields. */
  lemma ZeroDateRule(str: string, zeroToMin: bool)
    ensures var b := TsBuffer(str);
      TsFromText(str, zeroToMin).None? <==> !zeroToMin && (b[4..6] == "00" || b[6..8] == "00")
    ensures var r := TsFromText(str, zeroToMin);
      r.Some? ==>
        && 0 <= r.value.year <= 9999 && 1 <= r.value.month <= 99 && 1 <= r.value.day <= 99
        && 0 <= r.value.hour <= 99 && 0 <= r.value.minute <= 99 && 0 <= r.value.second <= 99
  {
    var b := TsBuffer(str);
    TsBufferDigits(str);
    assert b[4..6] == "00" <==> b[4] == '0' && b[5] == '0';
    assert b[6..8] == "00" <==> b[6] == '0' && b[7] == '0';
  }

  /** Two decimal digits, leading zero included. */
  function Two(n: nat): (s: string)
    requires n < 100
    ensures |s| == 2
  {
    [DigitChar(n / 10), DigitChar(n % 10)]
  }

  /** Four decimal digits, leading zeros included. */
  function Four(n: nat): (s: string)
    requires n < 10000
    ensures |s| == 4
  {
    Two(n / 100) + Two(n % 100)
  }

  /** A character that is neither a digit nor the terminator is skipped. */
  lemma DigitsOfSkip(c: char, rest: string, cap: nat)
    requires !IsDigit(c) && c != '\0'
    ensures DigitsOf([c] + rest, cap) == DigitsOf(rest, cap)
  {
    if cap != 0 {
      assert ([c] + rest)[1..] == rest;
    }
  }

  /** Leading digits are taken as they are. */
  lemma {:induction false} DigitsOfTake(a: string, rest: string, cap: nat)
    requires |a| <= cap && forall k :: 0 <= k < |a| ==> IsDigit(a[k])
    ensures DigitsOf(a + rest, cap) == a + DigitsOf(rest, cap - |a|)
  {
    if |a| == 0 {
      assert a + rest == rest;
    } else {
      assert (a + rest)[0] == a[0] && (a + rest)[1..] == a[1..] + rest;
      DigitsOfTake(a[1..], rest, cap - 1);
      assert a == [a[0]] + a[1..];
      assert [a[0]] + (a[1..] + DigitsOf(rest, cap - |a|)) == a + DigitsOf(rest, cap - |a|);
    }
  }

  lemma TwoDigits(n: nat)
    requires n < 100
    ensures var s := Two(n); IsDigit(s[0]) && IsDigit(s[1]) && Pair(s, 0) == n
  {
  }

  /** The text "YYYY-MM-DD hh:mm:ss" of a timestamp. */
  function TsText(ts: Timestamp): string
    requires 0 <= ts.year < 10000 && 0 <= ts.month < 100 && 0 <= ts.day < 100
    requires 0 <= ts.hour < 100 && 0 <= ts.minute < 100 && 0 <= ts.second < 100
  {
    Four(ts.year) + ("-" + (Two(ts.month) + ("-" + (Two(ts.day) + (" " + (Two(ts.hour)
      + (":" + (Two(ts.minute) + (":" + Two(ts.second))))))))))
  }

  /** A run of digits followed by a separator: the digits are taken, the separator
      skipped. */
  lemma DigitsThenSeparator(x: string, sep: char, rest: string, cap: nat)
    requires |x| <= cap && forall k :: 0 <= k < |x| ==> IsDigit(x[k])
    requires !IsDigit(sep) && sep != '\0'
    ensures DigitsOf(x + ([sep] + rest), cap) == x + DigitsOf(rest, cap - |x|)
  {
    DigitsOfTake(x, [sep] + rest, cap);
    DigitsOfSkip(sep, rest, cap - |x|);
  }

  /** The digits of "hh:mm:ss" after a separator, in order. */
  lemma TimePartDigits(sep: char, h: nat, mi: nat, s: nat, cap: nat)
    requires !IsDigit(sep) && sep != '\0'
    requires h < 100 && mi < 100 && s < 100 && cap >= 6
    ensures DigitsOf([sep] + (Two(h) + (":" + (Two(mi) + (":" + Two(s))))), cap)
      == Two(h) + (Two(mi) + (Two(s) + DigitsOf([], cap - 6)))
  {
    TwoDigits(h); TwoDigits(mi); TwoDigits(s);
    DigitsOfSkip(sep, Two(h) + (":" + (Two(mi) + (":" + Two(s)))), cap);
    DigitsThenSeparator(Two(h), ':', Two(mi) + (":" + Two(s)), cap);
    DigitsThenSeparator(Two(mi), ':', Two(s), cap - 2);
    DigitsOfTake(Two(s), [], cap - 4);
    assert Two(s) + [] == Two(s);
  }

  /** The digits of "YYYY-MM-DD hh:mm:ss", in order. */
  lemma TsTextDigits(ts: Timestamp)
    requires 0 <= ts.year < 10000 && 0 <= ts.month < 100 && 0 <= ts.day < 100
    requires 0 <= ts.hour < 100 && 0 <= ts.minute < 100 && 0 <= ts.second < 100
    ensures DigitsOf(TsText(ts), 14)
      == Four(ts.year) + (Two(ts.month) + (Two(ts.day) + (Two(ts.hour) + (Two(ts.minute) + Two(ts.second)))))
  {
    var y, mo, d := Four(ts.year), Two(ts.month), Two(ts.day);
    TwoDigits(ts.year / 100); TwoDigits(ts.year % 100); TwoDigits(ts.month); TwoDigits(ts.day);
    var time := " " + (Two(ts.hour) + (":" + (Two(ts.minute) + (":" + Two(ts.second)))));
    TimePartDigits(' ', ts.hour, ts.minute, ts.second, 6);
    assert DigitsOf(time, 6) == Two(ts.hour) + (Two(ts.minute) + Two(ts.second));
    assert TsText(ts) == y + ("-" + (mo + ("-" + (d + time))));
    DigitsOfTake(d, time, 8);
    DigitsThenSeparator(mo, '-', d + time, 10);
    DigitsThenSeparator(y, '-', mo + ("-" + (d + time)), 14);
  }

  /** A timestamp written as "YYYY-MM-DD hh:mm:ss" with a month and a day that are
      not 0 reads back as itself, whatever `zeroToMin` says. */
  lemma TsRoundTrip(ts: Timestamp, zeroToMin: bool)
    requires 0 <= ts.year < 10000 && 1 <= ts.month < 100 && 1 <= ts.day < 100
    requires 0 <= ts.hour < 100 && 0 <= ts.minute < 100 && 0 <= ts.second < 100
    requires ts.fraction == 0
    ensures TsFromText(TsText(ts), zeroToMin) == Some(ts)
  {
    TsTextDigits(ts);
    var y, mo, d, h, mi, s := Four(ts.year), Two(ts.month), Two(ts.day), Two(ts.hour),
                              Two(ts.minute), Two(ts.second);
    var b := TsBuffer(TsText(ts));
    assert b == y + (mo + (d + (h + (mi + s))));
    assert b[..4] == y && b[4..6] == mo && b[6..8] == d && b[8..10] == h && b[10..12] == mi && b[12..] == s;
    assert Pair(b, 4) == ts.month by { TwoDigits(ts.month); }
    assert Pair(b, 6) == ts.day by { TwoDigits(ts.day); }
    assert Pair(b, 8) == ts.hour by { TwoDigits(ts.hour); }
    assert Pair(b, 10) == ts.minute by { TwoDigits(ts.minute); }
    assert Pair(b, 12) == ts.second by { TwoDigits(ts.second); }
    assert Digit(b[0]) * 1000 + Digit(b[1]) * 100 + Digit(b[2]) * 10 + Digit(b[3]) == ts.year by {
      TwoDigits(ts.year / 100); TwoDigits(ts.year % 100);
    }
  }

  // ------------------------------------------------------------ str_to_time_st

  /** `SQL_TIME_STRUCT`. */
  datatype Time = Time(hour: int, minute: int, second: int)

  /** What `str_to_time_st` yields: the first six characters of its 12-byte buffer
      read in pairs, where the buffer holds the digits of the text (up to 11) over
      whatever it held before (`stale`). */
  function TimeFromText(str: string, stale: string): Time
    requires |stale| == 12
  {
    var d := DigitsOf(str, 11);
    var b := d + stale[|d|..];
    Time(UShort(Pair(b, 0)), UShort(Pair(b, 2)), UShort(Pair(b, 4)))
  }

  /** `str_to_time_st`: collects digits into a buffer that starts out as `stale`
      and reads hours, minutes and seconds from it. */
  method StrToTimeSt(str: string, stale: string) returns (t: Time)
    requires |stale| == 12
    ensures t == TimeFromText(str, stale)
  {
    var buff := new char[12](i requires 0 <= i < 12 => stale[i]);
    var len := CollectDigits(str, buff, 11);
    assert buff[..] == DigitsOf(str, 11) + stale[len..];
    t := Time(UShort(Digit(buff[0]) * 10 + Digit(buff[1])), UShort(Digit(buff[2]) * 10 + Digit(buff[3])),
              UShort(Digit(buff[4]) * 10 + Digit(buff[5])));
  }

  /** With six digits or more in the text, the time is its first six digits in
      pairs and the stale buffer plays no part. */
  lemma TimeIgnoresStale(str: string, stale: string, stale': string)
    requires |stale| == 12 && |stale'| == 12 && |DigitsOf(str, 11)| >= 6
    ensures TimeFromText(str, stale) == TimeFromText(str, stale')
    ensures var d := DigitsOf(str, 11);
      TimeFromText(str, stale) == Time(Pair(d, 0), Pair(d, 2), Pair(d, 4))
  {
  }

  /** The text "hh:mm:ss" of a time. */
  function TimeText(t: Time): string
    requires 0 <= t.hour < 100 && 0 <= t.minute < 100 && 0 <= t.second < 100
  {
    Two(t.hour) + (":" + (Two(t.minute) + (":" + Two(t.second))))
  }

  /** "hh:mm:ss" reads back as the time it was written from. */
  lemma TimeRoundTrip(t: Time, stale: string)
    requires 0 <= t.hour < 100 && 0 <= t.minute < 100 && 0 <= t.second < 100 && |stale| == 12
    ensures TimeFromText(TimeText(t), stale) == t
  {
    var h, m, s := Two(t.hour), Two(t.minute), Two(t.second);
    TwoDigits(t.hour); TwoDigits(t.minute); TwoDigits(t.second);
    DigitsOfTake(s, [], 7);
    assert s + [] == s;
    DigitsOfSkip(':', s, 7);
    DigitsOfTake(m, ":" + s, 9);
    DigitsOfSkip(':', m + (":" + s), 9);
    DigitsOfTake(h, ":" + (m + (":" + s)), 11);
    assert DigitsOf(TimeText(t), 11) == h + m + s;
  }

  // ------------------------------------------- str_to_date, str_to_time_as_long

  /** The first position at or after `p` that holds a digit, or the end. */
  function SkipNonDigits(s: string, p: nat): (q: nat)
    requires p <= |s|
    ensures p <= q <= |s| && (q < |s| ==> IsDigit(s[q]))
    decreases |s| - p
  {
    if p == |s| || IsDigit(s[p]) then p else SkipNonDigits(s, p + 1)
  }

  /** Everything skipped is a non-digit. */
  lemma {:induction false} SkippedNonDigits(s: string, p: nat)
    requires p <= |s|
    ensures forall k :: p <= k < SkipNonDigits(s, p) ==> !IsDigit(s[k])
    decreases |s| - p
  {
    if p < |s| && !IsDigit(s[p]) {
      SkippedNonDigits(s, p + 1);
    }
  }

  /** The end of the run of digits that starts at `p`. */
  function RunEnd(s: string, p: nat): (q: nat)
    requires p <= |s|
    ensures p <= q <= |s| && (q < |s| ==> !IsDigit(s[q]))
    decreases |s| - p
  {
    if p == |s| || !IsDigit(s[p]) then p else RunEnd(s, p + 1)
  }

  /** A run holds digits only. */
  lemma {:induction false} RunDigits(s: string, p: nat)
    requires p <= |s|
    ensures forall k :: p <= k < RunEnd(s, p) ==> IsDigit(s[k])
    decreases |s| - p
  {
    if p < |s| && IsDigit(s[p]) {
      RunDigits(s, p + 1);
    }
  }

  /** Digits read into a C `uint`: times ten plus the digit, modulo 2^32. */
  function U32Value(d: string): (v: nat)
    ensures v < UInt32Modulus
  {
    if |d| == 0 then 0 else (U32Value(d[..|d| - 1]) * 10 + Digit(d[|d| - 1])) % UInt32Modulus
  }

  function Pow10(n: nat): (p: nat)
    ensures p >= 1
  {
    if n == 0 then 1 else 10 * Pow10(n - 1)
  }

  /** One more digit: the value so far times ten plus the digit, in a `uint`. */
  lemma U32Snoc(a: string, c: char)
    ensures U32Value(a + [c]) == (U32Value(a) * 10 + Digit(c)) % UInt32Modulus
  {
    assert (a + [c])[..|a|] == a;
  }

  /** Up to nine digits fit a `uint`: their value is below 10 to the number of
      digits. */
  lemma {:induction false} U32Small(a: string)
    requires |a| <= 9 && forall k :: 0 <= k < |a| ==> IsDigit(a[k])
    ensures U32Value(a) < Pow10(|a|)
  {
    if |a| != 0 {
      U32Small(a[..|a| - 1]);
      Pow10Bound(|a|);
    }
  }

  /** A run of digits followed by more reads as the first run shifted left by the
      second, when all of it fits in nine digits. */
  lemma {:induction false} U32Append(a: string, b: string)
    requires |a| + |b| <= 9
    requires forall k :: 0 <= k < |a| ==> IsDigit(a[k])
    requires forall k :: 0 <= k < |b| ==> IsDigit(b[k])
    ensures U32Value(a + b) == U32Value(a) * Pow10(|b|) + U32Value(b)
  {
    if |b| == 0 {
      assert a + b == a;
    } else {
      var b', c := b[..|b| - 1], b[|b| - 1];
      assert a + b == (a + b') + [c] && b == b' + [c];
      U32Append(a, b');
      AppendStep(a, b', c);
    }
  }

  /** The step of `U32Append`: one more digit on both sides. */
  lemma AppendStep(a: string, b: string, c: char)
    requires |a| + |b| < 9 && IsDigit(c)
    requires forall k :: 0 <= k < |a| ==> IsDigit(a[k])
    requires forall k :: 0 <= k < |b| ==> IsDigit(b[k])
    requires U32Value(a + b) == U32Value(a) * Pow10(|b|) + U32Value(b)
    ensures U32Value((a + b) + [c]) == U32Value(a) * Pow10(|b| + 1) + U32Value(b + [c])
  {
    var q := Pow10(|a + b|);
    AppendBounds(a, b);
    SnocNoWrap(a + b, c, q);
    SnocNoWrap(b, c, q);
    var p := Pow10(|b|);
    assert Pow10(|b| + 1) == 10 * p;
    Shift(U32Value(a), p, Pow10(|b| + 1), U32Value(b), Digit(c), U32Value(a + b));
  }

  /** Both `a + b` and `b` read below 10 to the length of `a + b`, which is at most
      10^8. */
  lemma AppendBounds(a: string, b: string)
    requires |a| + |b| < 9
    requires forall k :: 0 <= k < |a| ==> IsDigit(a[k])
    requires forall k :: 0 <= k < |b| ==> IsDigit(b[k])
    ensures U32Value(a + b) < Pow10(|a + b|) && U32Value(b) < Pow10(|a + b|)
    ensures 10 * Pow10(|a + b|) <= 1_000_000_000
  {
    assert forall k :: 0 <= k < |a + b| ==> IsDigit((a + b)[k]);
    U32Small(a + b);
    U32Small(b);
    Pow10Bound(|a + b| + 1);
    Pow10Monotone(|b|, |a + b|);
  }

  /** One more digit on a value below `p` is that value times ten plus the digit,
      while `10 * p` is at most 10^9. */
  lemma SnocNoWrap(d: string, c: char, p: int)
    requires IsDigit(c) && U32Value(d) < p && 10 * p <= 1_000_000_000
    ensures U32Value(d + [c]) == U32Value(d) * 10 + Digit(c)
  {
    U32Snoc(d, c);
    DigitStep(U32Value(d), p, Digit(c));
  }

  /** Another digit on a number below `p` does not wrap a `uint` while `10 * p`
      is at most 10^9. */
  lemma DigitStep(n: int, p: int, v: int)
    requires 0 <= n < p && 10 * p <= 1_000_000_000 && 0 <= v < 10
    ensures (n * 10 + v) % UInt32Modulus == n * 10 + v
  {
  }

  /** Shifting `x * p + y` one more digit left: `x` moves by `10 * p`. */
  lemma Shift(x: int, p: int, p10: int, y: int, v: int, n: int)
    requires p10 == 10 * p && n == x * p + y
    ensures n * 10 + v == x * p10 + (y * 10 + v)
  {
  }

  lemma Pow10Bound(n: nat)
    requires n <= 9
    ensures Pow10(n) <= 1_000_000_000
  {
    Pow10Monotone(n, 9);
    assert Pow10(3) == 1000;
    assert Pow10(6) == 1000 * Pow10(3);
    assert Pow10(9) == 1000 * Pow10(6);
  }

  /** What one scan of fields finds: the field values, and where it stopped. */
  datatype Scan = Scan(fields: seq<nat>, end: nat)

  /** Reading up to `n` fields from position `p` (a digit, or the end): each field
      is its first digit and at most `width - 1` more (`restWidth` after the first
      field), read as a `uint`; the non-digits after it are skipped. */
  function Fields(s: string, p: nat, n: nat, width: nat, restWidth: nat): (r: Scan)
    requires p <= |s| && (p < |s| ==> IsDigit(s[p])) && width >= 1 && restWidth >= 1
    ensures |r.fields| <= n && p <= r.end <= |s| && (r.end < |s| ==> IsDigit(s[r.end]))
    ensures |r.fields| < n ==> r.end == |s|
    ensures |r.fields| == 0 <==> n == 0 || p == |s|
    ensures |r.fields| != 0 ==> r.end > p
    decreases n
  {
    if n == 0 || p == |s| then Scan([], p)
    else
      var q := Min(RunEnd(s, p), p + width);
      var rest := Fields(s, SkipNonDigits(s, q), n - 1, restWidth, restWidth);
      Scan([U32Value(s[p..q])] + rest.fields, rest.end)
  }

  /** Each field of a scan with widths of at most nine digits is below 10 to its
      width. */
  lemma {:induction false} FieldsBounded(s: string, p: nat, n: nat, width: nat, restWidth: nat)
    requires p <= |s| && (p < |s| ==> IsDigit(s[p])) && 1 <= width <= 9 && 1 <= restWidth <= 9
    ensures forall k :: 0 <= k < |Fields(s, p, n, width, restWidth).fields| ==>
      Fields(s, p, n, width, restWidth).fields[k] < Pow10(if k == 0 then width else restWidth)
    decreases n
  {
    if n != 0 && p != |s| {
      var q := Min(RunEnd(s, p), p + width);
      RunDigits(s, p);
      assert forall k :: 0 <= k < q - p ==> IsDigit(s[p..q][k]);
      U32Small(s[p..q]);
      Pow10Monotone(q - p, width);
      var p2 := SkipNonDigits(s, q);
      FieldsBounded(s, p2, n - 1, restWidth, restWidth);
      var rest := Fields(s, p2, n - 1, restWidth, restWidth).fields;
      assert forall k :: 0 <= k < |rest| ==> rest[k] < Pow10(restWidth);
      var f := Fields(s, p, n, width, restWidth).fields;
      assert f == [U32Value(s[p..q])] + rest;
      assert f[0] < Pow10(width);
      forall k | 1 <= k < |f|
        ensures f[k] < Pow10(restWidth)
      {
        assert f[k] == rest[k - 1];
      }
    }
  }

  lemma {:induction false} Pow10Monotone(a: nat, b: nat)
    requires a <= b
    ensures Pow10(a) <= Pow10(b)
    decreases b
  {
    if a < b {
      Pow10Monotone(a, b - 1);
    }
  }

  /** `SQLSMALLINT` narrowing. */
  function Short(x: int): (r: int)
    ensures -0x8000 <= r < 0x8000
    ensures -0x8000 <= x < 0x8000 ==> r == x
  {
    (x + 0x8000) % 0x1_0000 - 0x8000
  }

  /** `SQL_DATE_STRUCT`. */
  datatype Date = Date(year: int, month: int, day: int)

  /** The year takes four digits when the first run of digits has 4, 8 or at least
      14 (YYYY-MM-DD, YYYYMMDD, YYYYMMDDhhmmss), two otherwise. */
  function YearWidth(s: string, p: nat): nat
    requires p <= |s|
  {
    var digits := RunEnd(s, p) - p;
    if digits == 4 || digits == 8 || digits >= 14 then 4 else 2
  }

  /** What `str_to_date` yields for the `length` characters `s`: `None` where it
      returns 1. Fewer than two fields, or a zero month or day, fail without
      `zeroToMin` and otherwise read as 1; a missing day of an otherwise valid date
      is 1. Where no field is found at all, the year is whatever `date[0]` held
      (`stale`). */
  function DateFromText(s: string, zeroToMin: bool, stale: nat): Option<Date>
  {
    var p := SkipNonDigits(s, 0);
    DateFromFields(Fields(s, p, 3, YearWidth(s, p), 2).fields, zeroToMin, stale)
  }

  /** The date the fields read make, or `None` where the driver returns 1. */
  function DateFromFields(f: seq<nat>, zeroToMin: bool, stale: nat): Option<Date>
  {
    if |f| <= 1 || f[1] == 0 || (|f| > 2 && f[2] == 0) then
      if !zeroToMin then None
      else Some(Date(Short(if |f| == 0 then stale else f[0]),
                     UShort(if |f| > 1 && f[1] != 0 then f[1] else 1),
                     UShort(if |f| > 2 && f[2] != 0 then f[2] else 1)))
    else Some(Date(Short(f[0]), UShort(f[1]), UShort(if |f| > 2 then f[2] else 1)))
  }

  /** The loop that skips non-digits. */
  method SkipLoop(s: string, p: nat) returns (q: nat)
    requires p <= |s|
    ensures q == SkipNonDigits(s, p)
  {
    q := p;
    while q < |s| && !IsDigit(s[q])
      invariant p <= q <= |s| && SkipNonDigits(s, q) == SkipNonDigits(s, p)
    {
      q := q + 1;
    }
  }

  /** The loop that reads one field: the digit at `p` and then digits while there
      are any and the width allows, accumulated in a `uint`. */
  method ReadField(s: string, p: nat, width: nat) returns (value: nat, q: nat)
    requires p < |s| && IsDigit(s[p]) && width >= 1
    ensures q == Min(RunEnd(s, p), p + width) && value == U32Value(s[p..q])
  {
    value := Digit(s[p]) % UInt32Modulus;
    q := p + 1;
    assert s[p..q][..0] == [];
    var left := width - 1;
    while q < |s| && IsDigit(s[q]) && left > 0
      invariant p < q <= p + width && left == width - (q - p) && q <= |s|
      invariant RunEnd(s, q) == RunEnd(s, p)
      invariant value == U32Value(s[p..q])
    {
      assert s[p..q + 1][..q - p] == s[p..q];
      value := (value * 10 + Digit(s[q])) % UInt32Modulus;
      q := q + 1;
      left := left - 1;
    }
  }

  /** The field loop of `str_to_date` and `str_to_time_as_long`: up to three fields
      into `date`, which keeps what it held where no field is read. */
  method ScanFields(s: string, p: nat, width: nat, restWidth: nat, date: array<nat>) returns (i: nat, q: nat)
    requires p <= |s| && (p < |s| ==> IsDigit(s[p])) && width >= 1 && restWidth >= 1
    requires date.Length == 3
    modifies date
    ensures var r := Fields(s, p, 3, width, restWidth);
      i == |r.fields| && q == r.end && forall k :: 0 <= k < i ==> date[k] == r.fields[k]
    ensures forall k :: i <= k < 3 ==> date[k] == old(date[k])
  {
    ghost var total := Fields(s, p, 3, width, restWidth);
    ghost var init := date[..];
    ghost var rest := total;
    ghost var got: seq<nat> := [];
    i := 0;
    q := p;
    var w := width;
    while i < 3 && q < |s|
      invariant 0 <= i <= 3 && q <= |s| && (q < |s| ==> IsDigit(s[q])) && w >= 1
      invariant rest == Fields(s, q, 3 - i, w, restWidth)
      invariant |got| == i && forall k :: 0 <= k < i ==> date[k] == got[k]
      invariant got + rest.fields == total.fields && rest.end == total.end
      invariant forall k :: i <= k < 3 ==> date[k] == init[k]
    {
      var value, next := ScanOne(s, q, 3 - i, w, restWidth);
      ghost var after := Fields(s, next, 3 - i - 1, restWidth, restWidth);
      AppendOne(got, value, after.fields);
      date[i] := value;
      got := got + [value];
      rest := after;
      q := next;
      i := i + 1;
      w := restWidth;
    }
    assert rest.fields == [] && got + [] == got;
  }

  /** Moving one element across a concatenation. */
  lemma AppendOne(a: seq<nat>, x: nat, b: seq<nat>)
    ensures a + ([x] + b) == (a + [x]) + b
  {
  }

  /** One step of the field loop: the field at `q` and where the next one starts;
      the scan from `q` is this field followed by the scan from `next`. */
  method ScanOne(s: string, q: nat, n: nat, w: nat, restWidth: nat) returns (value: nat, next: nat)
    requires q < |s| && IsDigit(s[q]) && w >= 1 && restWidth >= 1 && n >= 1
    ensures next <= |s| && (next < |s| ==> IsDigit(s[next]))
    ensures Fields(s, q, n, w, restWidth)
      == Scan([value] + Fields(s, next, n - 1, restWidth, restWidth).fields,
              Fields(s, next, n - 1, restWidth, restWidth).end)
  {
    var e;
    value, e := ReadField(s, q, w);
    next := SkipLoop(s, e);
    FieldsUnfold(s, q, n, w, restWidth);
  }

  /** One field read, the rest to come. */
  lemma FieldsUnfold(s: string, p: nat, n: nat, width: nat, restWidth: nat)
    requires p < |s| && IsDigit(s[p]) && width >= 1 && restWidth >= 1 && n >= 1
    ensures var q := Min(RunEnd(s, p), p + width);
      var rest := Fields(s, SkipNonDigits(s, q), n - 1, restWidth, restWidth);
      Fields(s, p, n, width, restWidth) == Scan([U32Value(s[p..q])] + rest.fields, rest.end)
  {
  }

  /** `str_to_date`: skips to the first digit, sizes the year from the first run
      of digits, reads up to three fields, and checks them. */
  method StrToDate(s: string, zeroToMin: bool, stale: nat) returns (failed: bool, d: Date)
    ensures failed <==> DateFromText(s, zeroToMin, stale).None?
    ensures !failed ==> d == DateFromText(s, zeroToMin, stale).value
  {
    var p := SkipLoop(s, 0);
    var e := p;
    while e < |s| && IsDigit(s[e])
      invariant p <= e <= |s| && RunEnd(s, e) == RunEnd(s, p)
    {
      e := e + 1;
    }
    var digits := e - p;
    var yearLength := if digits == 4 || digits == 8 || digits >= 14 then 4 else 2;
    assert yearLength == YearWidth(s, p);
    var date := new nat[3];
    date[0] := stale;  // what the uninitialised slot held
    var i, q := ScanFields(s, p, yearLength, 2, date);
    ghost var f := Fields(s, p, 3, yearLength, 2).fields;
    assert DateFromText(s, zeroToMin, stale) == DateFromFields(f, zeroToMin, stale);
    failed, d := CheckDate(date, i, zeroToMin, f, stale);
  }

  /** The checks at the end of `str_to_date`, on the fields read into `date`. */
  method CheckDate(date: array<nat>, i: nat, zeroToMin: bool, ghost f: seq<nat>, ghost stale: nat)
    returns (failed: bool, d: Date)
    requires date.Length == 3 && i == |f| <= 3 && (i == 0 ==> date[0] == stale)
    requires forall k :: 0 <= k < i ==> date[k] == f[k]
    modifies date
    ensures failed <==> DateFromFields(f, zeroToMin, stale).None?
    ensures !failed ==> d == DateFromFields(f, zeroToMin, stale).value
  {
    var i := i;
    if i <= 1 || date[1] == 0 || (i > 2 && date[2] == 0) {
      if !zeroToMin {
        return true, Date(0, 0, 0);  // not written
      }
      d := Date(Short(date[0]), UShort(if i > 1 && date[1] != 0 then date[1] else 1),
                UShort(if i > 2 && date[2] != 0 then date[2] else 1));
    } else {
      while i < 3
        invariant 2 <= i <= 3 && (i == |f| || i == 3) && date[0] == f[0] && date[1] == f[1]
        invariant i == 3 ==> date[2] == (if |f| > 2 then f[2] else 1)
      {
        date[i] := 1;
        i := i + 1;
      }
      d := Date(Short(date[0]), UShort(date[1]), UShort(date[2]));
    }
    failed := false;
  }

  /** What `str_to_time_as_long` returns for the `length` characters `s`: 0 for no
      text; where three fields are read and text is left over (a date before the
      time) the value for the rest; otherwise hhmmss from three fields, or the
      first field alone when fewer were read or it already exceeds 10000 (an hhmmss
      run). Where no field is found the first slot's stale contents come back. */
  function TimeAsLong(s: string, stale: nat): nat
    decreases |s|
  {
    if |s| == 0 then 0
    else
      var p := SkipNonDigits(s, 0);
      var r := Fields(s, p, 3, |s|, |s|);
      if r.end < |s| then TimeAsLong(s[r.end..], stale)
      else if |r.fields| < 3 || r.fields[0] > 10000 then (if |r.fields| == 0 then stale else r.fields[0])
      else r.fields[0] * 10000 + (r.fields[1] * 100 + r.fields[2])
  }

  /** `str_to_time_as_long`: reads up to three unbounded fields and recurses on
      what is left. The driver's running `length` always equals the characters
      left, so its test for more input is the test for the end. */
  method StrToTimeAsLong(s: string, stale: nat) returns (r: nat)
    ensures r == TimeAsLong(s, stale)
    decreases |s|
  {
    if |s| == 0 {
      return 0;
    }
    var p := SkipLoop(s, 0);
    var date := new nat[3];
    date[0] := stale;  // what the uninitialised slot held
    var i, q := ScanFields(s, p, |s|, |s|, date);
    if q < |s| {
      r := StrToTimeAsLong(s[q..], stale);  // timestamp format
      return;
    }
    if date[0] > 10000 || i < 3 {
      return date[0];
    }
    r := date[0] * 10000 + (date[1] * 100 + date[2]);
  }

  // ------------------------------------------------------- properties of the scan

  predicate AllDigits(a: string)
  {
    forall k :: 0 <= k < |a| ==> IsDigit(a[k])
  }

  /** A run of digits reaches at least as far as the digits go, and ends where
      they stop. */
  lemma {:induction false} RunEndAt(s: string, p: nat, q: nat)
    requires p <= q <= |s| && forall k :: p <= k < q ==> IsDigit(s[k])
    ensures q <= RunEnd(s, p)
    ensures q == |s| || !IsDigit(s[q]) ==> RunEnd(s, p) == q
    decreases q - p
  {
    if p < q {
      RunEndAt(s, p + 1, q);
    }
  }

  /** Skipping stops at the first digit. */
  lemma {:induction false} SkipAt(s: string, p: nat, q: nat)
    requires p <= q <= |s| && (q < |s| ==> IsDigit(s[q]))
    requires forall k :: p <= k < q ==> !IsDigit(s[k])
    ensures SkipNonDigits(s, p) == q
    decreases q - p
  {
    if p < q {
      SkipAt(s, p + 1, q);
    }
  }

  /** A field read from the digits `s[p..q]`, where the run or the width stops,
      followed by the scan from the next digit at `next`. */
  lemma FieldAt(s: string, p: nat, q: nat, next: nat, n: nat, width: nat, restWidth: nat)
    requires p < q <= |s| && q - p <= width && n >= 1 && restWidth >= 1
    requires forall k :: p <= k < q ==> IsDigit(s[k])
    requires q - p == width || q == |s| || !IsDigit(s[q])
    requires next == SkipNonDigits(s, q)
    ensures Fields(s, p, n, width, restWidth).fields
      == [U32Value(s[p..q])] + Fields(s, next, n - 1, restWidth, restWidth).fields
    ensures Fields(s, p, n, width, restWidth).end == Fields(s, next, n - 1, restWidth, restWidth).end
  {
    RunEndAt(s, p, q);
    FieldsUnfold(s, p, n, width, restWidth);
  }

  lemma TwoAllDigits(n: nat)
    requires n < 100
    ensures AllDigits(Two(n))
  {
  }

  /** Two digits read back as their number. */
  lemma U32Two(n: nat)
    requires n < 100
    ensures U32Value(Two(n)) == n
  {
    var t := Two(n);
    assert t[..1][..0] == [];
    assert U32Value(t[..1]) == n / 10;
  }

  /** Four digits read back as their number. */
  lemma U32Four(n: nat)
    requires n < 10000
    ensures U32Value(Four(n)) == n && AllDigits(Four(n))
  {
    TwoAllDigits(n / 100);
    TwoAllDigits(n % 100);
    U32Append(Two(n / 100), Two(n % 100));
    U32Two(n / 100);
    U32Two(n % 100);
    assert Pow10(2) == 100;
  }

  /** A scan of digits with no separator reads them as one field, as a `uint`:
      more than nine digits wrap around modulo 2^32. */
  lemma DigitRunTimeAsLong(s: string, stale: nat)
    requires |s| > 0 && AllDigits(s)
    ensures TimeAsLong(s, stale) == U32Value(s)
  {
    RunEndAt(s, 0, |s|);
    FieldsUnfold(s, 0, 3, |s|, |s|);
    assert s[0..|s|] == s;
  }

  /** The last field, at `[a, b)`, with the next digit, or the end, at `e`. */
  lemma LastField(s: string, a: nat, b: nat, e: nat, w: nat)
    requires a < b <= e <= |s| && b - a <= w
    requires forall k :: a <= k < b ==> IsDigit(s[k])
    requires forall k :: b <= k < e ==> !IsDigit(s[k])
    requires b - a == w || b == |s| || !IsDigit(s[b])
    requires e < |s| ==> IsDigit(s[e])
    ensures Fields(s, a, 1, w, w) == Scan([U32Value(s[a..b])], e)
  {
    SkipAt(s, b, e);
    FieldAt(s, a, b, e, 1, w, w);
    assert Fields(s, e, 0, w, w) == Scan([], e);
  }

  /** Two fields, at `[a1, b1)` and `[a2, b2)`, then the next digit at `e`. */
  lemma TwoFields(s: string, a1: nat, b1: nat, a2: nat, b2: nat, e: nat, w: nat)
    requires a1 < b1 <= a2 < b2 <= e <= |s| && b1 - a1 <= w && b2 - a2 <= w
    requires forall k :: a1 <= k < b1 ==> IsDigit(s[k])
    requires forall k :: a2 <= k < b2 ==> IsDigit(s[k])
    requires forall k :: b1 <= k < a2 ==> !IsDigit(s[k])
    requires forall k :: b2 <= k < e ==> !IsDigit(s[k])
    requires b1 - a1 == w || !IsDigit(s[b1])
    requires b2 - a2 == w || b2 == |s| || !IsDigit(s[b2])
    requires e < |s| ==> IsDigit(s[e])
    ensures Fields(s, a1, 2, w, w) == Scan([U32Value(s[a1..b1]), U32Value(s[a2..b2])], e)
  {
    LastField(s, a2, b2, e, w);
    SkipAt(s, b1, a2);
    FieldAt(s, a1, b1, a2, 2, w, w);
  }

  /** Three fields laid out at `[a0, b0)`, `[a1, b1)` and `[a2, b2)`, with
      non-digits between them and the next digit, or the end, at `e`. */
  lemma ThreeFields(s: string, a0: nat, b0: nat, a1: nat, b1: nat, a2: nat, b2: nat, e: nat,
                    width: nat, restWidth: nat)
    requires a0 < b0 <= a1 < b1 <= a2 < b2 <= e <= |s|
    requires b0 - a0 <= width && b1 - a1 <= restWidth && b2 - a2 <= restWidth
    requires forall k :: a0 <= k < b0 ==> IsDigit(s[k])
    requires forall k :: a1 <= k < b1 ==> IsDigit(s[k])
    requires forall k :: a2 <= k < b2 ==> IsDigit(s[k])
    requires forall k :: b0 <= k < a1 ==> !IsDigit(s[k])
    requires forall k :: b1 <= k < a2 ==> !IsDigit(s[k])
    requires forall k :: b2 <= k < e ==> !IsDigit(s[k])
    requires b0 - a0 == width || !IsDigit(s[b0])
    requires b1 - a1 == restWidth || !IsDigit(s[b1])
    requires b2 - a2 == restWidth || b2 == |s| || !IsDigit(s[b2])
    requires e < |s| ==> IsDigit(s[e])
    ensures Fields(s, a0, 3, width, restWidth)
      == Scan([U32Value(s[a0..b0]), U32Value(s[a1..b1]), U32Value(s[a2..b2])], e)
  {
    TwoFields(s, a1, b1, a2, b2, e, restWidth);
    SkipAt(s, b0, a1);
    FieldAt(s, a0, b0, a1, 3, width, restWidth);
  }

  /** Three two-digit numbers with a separator between them, as in "hh:mm:ss". */
  function Triple(a: nat, b: nat, c: nat, sep: char): (s: string)
    requires a < 100 && b < 100 && c < 100
    ensures |s| == 8
  {
    Two(a) + ([sep] + (Two(b) + ([sep] + Two(c))))
  }

  /** Where the pieces of a triple sit. */
  lemma TripleShape(a: nat, b: nat, c: nat, sep: char)
    requires a < 100 && b < 100 && c < 100
    ensures var s := Triple(a, b, c, sep);
      && s[0..2] == Two(a) && s[2] == sep && s[3..5] == Two(b) && s[5] == sep && s[6..8] == Two(c)
      && (forall k :: 0 <= k < 2 ==> IsDigit(s[k]))
      && (forall k :: 3 <= k < 5 ==> IsDigit(s[k]))
      && (forall k :: 6 <= k < 8 ==> IsDigit(s[k]))
  {
    var s := Triple(a, b, c, sep);
    TwoAllDigits(a); TwoAllDigits(b); TwoAllDigits(c);
    assert s[0..2] == Two(a) && s[3..5] == Two(b) && s[6..8] == Two(c);
  }

  /** The text "YYYY-MM-DD" of a date. */
  function DateText(y: nat, m: nat, d: nat): (s: string)
    requires y < 10000 && m < 100 && d < 100
    ensures |s| == 10
  {
    Four(y) + ("-" + (Two(m) + ("-" + Two(d))))
  }

  /** Where the pieces of "YYYY-MM-DD" sit. */
  lemma DateTextShape(y: nat, m: nat, d: nat)
    requires y < 10000 && m < 100 && d < 100
    ensures var s := DateText(y, m, d);
      && s[0..4] == Four(y) && s[4] == '-' && s[5..7] == Two(m) && s[7] == '-' && s[8..10] == Two(d)
      && (forall k :: 0 <= k < 4 ==> IsDigit(s[k]))
      && (forall k :: 5 <= k < 7 ==> IsDigit(s[k]))
      && (forall k :: 8 <= k < 10 ==> IsDigit(s[k]))
  {
    var s := DateText(y, m, d);
    U32Four(y); TwoAllDigits(m); TwoAllDigits(d);
    assert s[0..4] == Four(y) && s[5..7] == Two(m) && s[8..10] == Two(d);
  }

  /** The date three fields make when month and day are not zero. */
  lemma ThreeFieldDate(s: string, y: nat, m: nat, d: nat, zeroToMin: bool, stale: nat)
    requires y < 10000 && 1 <= m < 100 && 1 <= d < 100
    requires |s| > 0 && IsDigit(s[0])
    requires Fields(s, 0, 3, YearWidth(s, 0), 2).fields == [y, m, d]
    ensures DateFromText(s, zeroToMin, stale) == Some(Date(y, m, d))
  {
    SkipAt(s, 0, 0);
    var f := Fields(s, 0, 3, YearWidth(s, 0), 2).fields;
    assert f == [y, m, d];
    assert DateFromText(s, zeroToMin, stale) == DateFromFields(f, zeroToMin, stale);
    FullDate(y, m, d, zeroToMin, stale);
  }

  /** Three fields with a month and a day make the date they name. */
  lemma FullDate(y: nat, m: nat, d: nat, zeroToMin: bool, stale: nat)
    requires y < 10000 && 1 <= m < 100 && 1 <= d < 100
    ensures DateFromFields([y, m, d], zeroToMin, stale) == Some(Date(y, m, d))
  {
  }

  /** "YYYY-MM-DD" reads back as the date it was written from, with or without
      `zeroToMin`, when month and day are not zero. */
  lemma DateRoundTrip(y: nat, m: nat, d: nat, zeroToMin: bool, stale: nat)
    requires y < 10000 && 1 <= m < 100 && 1 <= d < 100
    ensures DateFromText(DateText(y, m, d), zeroToMin, stale) == Some(Date(y, m, d))
  {
    var s := DateText(y, m, d);
    DateTextShape(y, m, d);
    U32Four(y); U32Two(m); U32Two(d);
    RunEndAt(s, 0, 4);
    ThreeFields(s, 0, 4, 5, 7, 8, 10, 10, 4, 2);
    ThreeFieldDate(s, y, m, d, zeroToMin, stale);
  }

  /** "YYYYMMDD" is one run of eight digits, so the year takes four and month and
      day two each. */
  lemma CompactDateRoundTrip(y: nat, m: nat, d: nat, zeroToMin: bool, stale: nat)
    requires y < 10000 && 1 <= m < 100 && 1 <= d < 100
    ensures DateFromText(Four(y) + (Two(m) + Two(d)), zeroToMin, stale) == Some(Date(y, m, d))
  {
    var s := Four(y) + (Two(m) + Two(d));
    U32Four(y); U32Two(m); U32Two(d); TwoAllDigits(m); TwoAllDigits(d);
    assert s[0..4] == Four(y) && s[4..6] == Two(m) && s[6..8] == Two(d);
    assert forall k :: 0 <= k < 8 ==> IsDigit(s[k]);
    RunEndAt(s, 0, 8);
    ThreeFields(s, 0, 4, 4, 6, 6, 8, 8, 4, 2);
    ThreeFieldDate(s, y, m, d, zeroToMin, stale);
  }

  /** Unlike `str_to_ts`, `str_to_date` adds no century: "YY-MM-DD" has the year
      as written. */
  lemma TwoDigitYearKept(y: nat, m: nat, d: nat, zeroToMin: bool, stale: nat)
    requires y < 100 && 1 <= m < 100 && 1 <= d < 100
    ensures DateFromText(Triple(y, m, d, '-'), zeroToMin, stale) == Some(Date(y, m, d))
  {
    var s := Triple(y, m, d, '-');
    TripleShape(y, m, d, '-');
    U32Two(y); U32Two(m); U32Two(d);
    RunEndAt(s, 0, 2);
    ThreeFields(s, 0, 2, 3, 5, 6, 8, 8, 2, 2);
    ThreeFieldDate(s, y, m, d, zeroToMin, stale);
  }

  /** Whatever the text, a date `str_to_date` accepts has a month and a day from 1
      to 99 and, without `zeroToMin`, a year from 0 to 9999; with `zeroToMin` it
      accepts everything. */
  lemma DateRanges(s: string, zeroToMin: bool, stale: nat)
    ensures zeroToMin ==> DateFromText(s, zeroToMin, stale).Some?
    ensures DateFromText(s, zeroToMin, stale).Some? ==>
      var d := DateFromText(s, zeroToMin, stale).value;
      && 1 <= d.month <= 99 && 1 <= d.day <= 99
      && (!zeroToMin ==> 0 <= d.year <= 9999)
  {
    var p := SkipNonDigits(s, 0);
    var w := YearWidth(s, p);
    FieldsBounded(s, p, 3, w, 2);
    assert Pow10(2) == 100 && Pow10(4) == 10000;
  }

  /** The text "hh:mm:ss" of a time reads as hhmmss. */
  lemma TimeAsLongOfText(t: Time, stale: nat)
    requires 0 <= t.hour < 100 && 0 <= t.minute < 100 && 0 <= t.second < 100
    ensures TimeAsLong(TimeText(t), stale) == t.hour * 10000 + t.minute * 100 + t.second
  {
    var s := Triple(t.hour, t.minute, t.second, ':');
    assert TimeText(t) == s;
    TripleShape(t.hour, t.minute, t.second, ':');
    U32Two(t.hour); U32Two(t.minute); U32Two(t.second);
    ThreeFields(s, 0, 2, 3, 5, 6, 8, 8, 8, 8);
    SkipAt(s, 0, 0);
  }

  /** "hhmmss" is one field, which is already hhmmss. */
  lemma CompactTimeAsLong(t: Time, stale: nat)
    requires 0 <= t.hour < 100 && 0 <= t.minute < 100 && 0 <= t.second < 100
    ensures TimeAsLong(Two(t.hour) + Two(t.minute) + Two(t.second), stale)
      == t.hour * 10000 + t.minute * 100 + t.second
  {
    var H, M, S := Two(t.hour), Two(t.minute), Two(t.second);
    U32Two(t.hour); U32Two(t.minute); U32Two(t.second);
    TwoAllDigits(t.hour); TwoAllDigits(t.minute); TwoAllDigits(t.second);
    U32Append(H, M);
    assert AllDigits(H + M);
    U32Append(H + M, S);
    assert AllDigits(H + M + S);
    assert Pow10(2) == 100;
    DigitRunTimeAsLong(H + M + S, stale);
  }

  /** A date before the time, "YYYY-MM-DD hh:mm:ss", uses up three fields without
      reaching the end, so the value is that of the time alone. */
  lemma TimestampTimeAsLong(y: nat, m: nat, d: nat, t: Time, stale: nat)
    requires y < 10000 && m < 100 && d < 100
    requires 0 <= t.hour < 100 && 0 <= t.minute < 100 && 0 <= t.second < 100
    ensures TimeAsLong(DateText(y, m, d) + (" " + TimeText(t)), stale)
      == t.hour * 10000 + t.minute * 100 + t.second
  {
    var date := DateText(y, m, d);
    var s := date + (" " + TimeText(t));
    DateTextShape(y, m, d);
    TwoAllDigits(t.hour);
    assert s[..10] == date && s[10] == ' ' && s[11..] == TimeText(t);
    assert s[11] == Two(t.hour)[0];
    TimestampSkipsDate(s, stale);
    TimeAsLongOfText(t, stale);
  }

  /** Text laid out as "YYYY-MM-DD" and a separator before more digits reads as
      what follows the separator. */
  lemma TimestampSkipsDate(s: string, stale: nat)
    requires |s| > 11 && s[4] == '-' && s[7] == '-' && s[10] == ' ' && IsDigit(s[11])
    requires forall k :: 0 <= k < 4 ==> IsDigit(s[k])
    requires forall k :: 5 <= k < 7 ==> IsDigit(s[k])
    requires forall k :: 8 <= k < 10 ==> IsDigit(s[k])
    ensures TimeAsLong(s, stale) == TimeAsLong(s[11..], stale)
  {
    SkipAt(s, 0, 0);
    ThreeFields(s, 0, 4, 5, 7, 8, 10, 11, |s|, |s|);
  }
}
