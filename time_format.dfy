/**
 * `format_time`: a countdown in seconds shown as `days:hh:mm:ss`, the days
 * in plain decimal and the other three fields zero-padded to two digits.
 */
module TimeFormat {
  import opened Base

  /** A second count broken into calendar-free fields. */
  datatype Countdown = Countdown(days: nat, hours: nat, minutes: nat, seconds: nat)
  {
    /** The number of seconds the fields stand for. */
    function Total(): nat
    {
      days * SECONDS_PER_DAY + hours * SECONDS_PER_HOUR + minutes * SECONDS_PER_MINUTE + seconds
    }

    /** Each field below its unit's size, as `format_time` produces them. */
    predicate Normal()
    {
      seconds < 60 && minutes < 60 && hours < 24
    }
  }

  /** The four fields `format_time` computes with `%` and `/`. */
  function Split(time: u64): (c: Countdown)
    ensures c.Normal()
  {
    Countdown(time / SECONDS_PER_DAY, (time / SECONDS_PER_HOUR) % 24, (time / SECONDS_PER_MINUTE) % 60, time % 60)
  }

  /** The fields add back up to the second count they were split from. */
  lemma {:induction false} SplitTotal(time: u64)
    ensures Split(time).Total() == time
  {
    var m := time / 60;
    var h := m / 60;
    var d := h / 24;
    assert time == 60 * m + time % 60;
    assert m == 60 * h + m % 60;
    assert h == 24 * d + h % 24;
    assert time / SECONDS_PER_HOUR == h by {
      assert time == SECONDS_PER_HOUR * h + (60 * (m % 60) + time % 60);
    }
    assert time / SECONDS_PER_DAY == d by {
      assert time == SECONDS_PER_DAY * d + (SECONDS_PER_HOUR * (h % 24) + 60 * (m % 60) + time % 60);
    }
  }

  /** Split is the only normal decomposition of a second count. */
  lemma {:induction false} SplitUnique(time: u64, c: Countdown)
    requires c.Normal() && c.Total() == time
    ensures c == Split(time)
  {
    var totalHours := c.days * 24 + c.hours;
    var totalMinutes := totalHours * 60 + c.minutes;
    assert time == totalMinutes * 60 + c.seconds;
    assert time / 60 == totalMinutes && time % 60 == c.seconds;
    assert time == totalHours * SECONDS_PER_HOUR + (c.minutes * 60 + c.seconds);
    assert time / SECONDS_PER_HOUR == totalHours;
    assert totalHours % 24 == c.hours;
    assert totalMinutes % 60 == c.minutes;
    assert time == c.days * SECONDS_PER_DAY + (c.hours * SECONDS_PER_HOUR + c.minutes * 60 + c.seconds);
    assert time / SECONDS_PER_DAY == c.days;
  }

  predicate IsDigit(ch: char) { '0' <= ch <= '9' }

  predicate AllDigits(s: string) { forall i :: 0 <= i < |s| ==> IsDigit(s[i]) }

  function DigitChar(d: nat): (ch: char)
    requires d < 10
    ensures IsDigit(ch) && ch as int - '0' as int == d
  {
    ('0' as int + d) as char
  }

  /** Rust's `{}` rendering of an unsigned integer. */
  function Decimal(n: nat): (s: string)
    ensures |s| >= 1 && AllDigits(s)
    ensures n < 10 <==> |s| == 1
  {
    if n < 10 then [DigitChar(n)] else Decimal(n / 10) + [DigitChar(n % 10)]
  }

  /** Rust's `{:02}` rendering of a number below one hundred. */
  function Pad2(n: nat): (s: string)
    requires n < 100
    ensures |s| == 2 && AllDigits(s)
  {
    if n < 10 then "0" + Decimal(n) else Decimal(n)
  }

  /** `format_time(time)`. */
  function FormatTime(time: u64): (s: string)
    ensures |s| >= 10
  {
    var c := Split(time);
    var hh, mm, ss := Pad2(c.hours), Pad2(c.minutes), Pad2(c.seconds);
    Decimal(c.days) + [':', hh[0], hh[1], ':', mm[0], mm[1], ':', ss[0], ss[1]]
  }

  /** The value of one decimal digit. */
  function Digit(ch: char): int
  {
    ch as int - '0' as int
  }

  /** The number a string of decimal digits spells, most significant first. */
  function DigitsValue(s: string): nat
    requires AllDigits(s)
  {
    if s == [] then 0 else DigitsValue(s[..|s| - 1]) * 10 + Digit(s[|s| - 1])
  }

  lemma {:induction false} DigitsValueDecimal(n: nat)
    ensures DigitsValue(Decimal(n)) == n
  {
    if n >= 10 {
      var s := Decimal(n);
      assert s[..|s| - 1] == Decimal(n / 10);
      DigitsValueDecimal(n / 10);
    }
  }

  lemma {:induction false} Pad2Digits(n: nat)
    requires n < 100
    ensures Digit(Pad2(n)[0]) * 10 + Digit(Pad2(n)[1]) == n
  {
    if n >= 10 {
      assert Decimal(n) == Decimal(n / 10) + [DigitChar(n % 10)];
      assert Decimal(n / 10) == [DigitChar(n / 10)];
    }
  }

  /** Reads `days:hh:mm:ss` back into a second count; None for any other shape. */
  function ReadTime(s: string): Option<nat>
  {
    if |s| < 10 then None
    else
      var days, t := s[..|s| - 9], s[|s| - 9..];
      if t[0] == ':' && t[3] == ':' && t[6] == ':' && AllDigits(days)
         && IsDigit(t[1]) && IsDigit(t[2]) && IsDigit(t[4]) && IsDigit(t[5]) && IsDigit(t[7]) && IsDigit(t[8])
      then
        var hours, minutes, seconds := Digit(t[1]) * 10 + Digit(t[2]), Digit(t[4]) * 10 + Digit(t[5]), Digit(t[7]) * 10 + Digit(t[8]);
        Some(Countdown(DigitsValue(days), hours, minutes, seconds).Total())
      else None
  }

  /** ReadTime takes apart a `days:hh:mm:ss` string at its three colons. */
  lemma {:induction false} ReadTimeOf(d: string, hh: string, mm: string, ss: string)
    requires |d| >= 1 && AllDigits(d)
    requires |hh| == 2 && |mm| == 2 && |ss| == 2 && AllDigits(hh) && AllDigits(mm) && AllDigits(ss)
    ensures ReadTime(d + [':', hh[0], hh[1], ':', mm[0], mm[1], ':', ss[0], ss[1]]) ==
      Some(Countdown(DigitsValue(d), Digit(hh[0]) * 10 + Digit(hh[1]),
                     Digit(mm[0]) * 10 + Digit(mm[1]), Digit(ss[0]) * 10 + Digit(ss[1])).Total())
  {
  }

  /** The rendered countdown can be read back: `format_time` loses nothing. */
  lemma {:induction false} ReadFormatTime(time: u64)
    ensures ReadTime(FormatTime(time)) == Some(time)
  {
    var c := Split(time);
    var d, hh, mm, ss := Decimal(c.days), Pad2(c.hours), Pad2(c.minutes), Pad2(c.seconds);
    assert FormatTime(time) == d + [':', hh[0], hh[1], ':', mm[0], mm[1], ':', ss[0], ss[1]];
    ReadTimeOf(d, hh, mm, ss);
    DigitsValueDecimal(c.days);
    Pad2Digits(c.hours);
    Pad2Digits(c.minutes);
    Pad2Digits(c.seconds);
    assert Countdown(DigitsValue(d), Digit(hh[0]) * 10 + Digit(hh[1]),
                     Digit(mm[0]) * 10 + Digit(mm[1]), Digit(ss[0]) * 10 + Digit(ss[1])) == c;
    SplitTotal(time);
  }

  /** Different second counts are never shown as the same text. */
  lemma {:induction false} FormatTimeInjective(a: u64, b: u64)
    requires FormatTime(a) == FormatTime(b)
    ensures a == b
  {
    ReadFormatTime(a);
    ReadFormatTime(b);
  }
}
