/** `strtotime` restricted to the one timestamp shape the token exchange
    returns, `YYYY-MM-DDThh:mm:ss.sssZ` in UTC: the instant in whole seconds
    since 1970-01-01T00:00:00Z, with the milliseconds discarded. */
module Iso8601 {
  import opened Wrappers

  /** The fields of a timestamp as written. */
  datatype DateTime = DateTime(year: int, month: int, day: int, hour: int, minute: int, second: int, millis: int)

  /** The two-digit ranges PHP's date parser accepts for this shape: month
      00-12, day 00-31, hour 00-24, minute 00-59, second 00-60. Out-of-calendar
      values are not rejected but roll over: month 00 is December of the
      previous year, day 00 the last day of the previous month, and a day past
      the end of its month, hour 24 and second 60 carry forward. */
  predicate Valid(t: DateTime) {
    && 0 <= t.year <= 9999 && 0 <= t.month <= 12 && 0 <= t.day <= 31
    && 0 <= t.hour <= 24 && 0 <= t.minute <= 59 && 0 <= t.second <= 60
    && 0 <= t.millis <= 999
  }

  // ---- Fixed-width decimal fields ----

  predicate IsDigit(c: char) {
    '0' <= c <= '9'
  }

  predicate AllDigits(s: string) {
    forall i :: 0 <= i < |s| ==> IsDigit(s[i])
  }

  function Pow10(w: nat): (p: nat)
    ensures p >= 1
  {
    if w == 0 then 1 else 10 * Pow10(w - 1)
  }

  /** The value of a string of decimal digits, most significant first. */
  function ParseDigits(s: string): (n: nat)
    requires AllDigits(s)
    ensures n < Pow10(|s|)
  {
    if s == [] then 0
    else ParseDigits(s[..|s| - 1]) * 10 + (s[|s| - 1] as int - '0' as int)
  }

  /** `n` written with exactly `w` digits, zero-padded on the left. */
  function Digits(n: nat, w: nat): (s: string)
    ensures |s| == w && AllDigits(s)
  {
    if w == 0 then "" else Digits(n / 10, w - 1) + [('0' as int + n % 10) as char]
  }

  lemma {:induction false} ParseDigitsOfDigits(n: nat, w: nat)
    requires n < Pow10(w)
    ensures ParseDigits(Digits(n, w)) == n
  {
    if w > 0 {
      var s := Digits(n, w);
      assert s[..w - 1] == Digits(n / 10, w - 1);
      ParseDigitsOfDigits(n / 10, w - 1);
    }
  }

  lemma {:induction false} DigitsOfParseDigits(s: string)
    requires AllDigits(s)
    ensures Digits(ParseDigits(s), |s|) == s
  {
    if s != [] {
      var n := |s| - 1;
      var p := ParseDigits(s[..n]);
      var d := s[n] as int - '0' as int;
      assert (p * 10 + d) / 10 == p && (p * 10 + d) % 10 == d;
      DigitsOfParseDigits(s[..n]);
      assert s == s[..n] + [s[n]];
    }
  }

  // ---- The textual form ----

  /** `YYYY-MM-DDThh:mm:ss.sssZ`. */
  function Render(t: DateTime): (s: string)
    requires Valid(t)
    ensures |s| == 24
  {
    Digits(t.year, 4) + "-" + Digits(t.month, 2) + "-" + Digits(t.day, 2) + "T"
    + Digits(t.hour, 2) + ":" + Digits(t.minute, 2) + ":" + Digits(t.second, 2) + "."
    + Digits(t.millis, 3) + "Z"
  }

  /** The separators and digit positions of `YYYY-MM-DDThh:mm:ss.sssZ`. */
  predicate Shaped(s: string) {
    && |s| == 24
    && s[4] == '-' && s[7] == '-' && s[10] == 'T' && s[13] == ':' && s[16] == ':'
    && s[19] == '.' && s[23] == 'Z'
    && AllDigits(s[0..4]) && AllDigits(s[5..7]) && AllDigits(s[8..10]) && AllDigits(s[11..13])
    && AllDigits(s[14..16]) && AllDigits(s[17..19]) && AllDigits(s[20..23])
  }

  function Fields(s: string): DateTime
    requires Shaped(s)
  {
    DateTime(ParseDigits(s[0..4]), ParseDigits(s[5..7]), ParseDigits(s[8..10]), ParseDigits(s[11..13]),
             ParseDigits(s[14..16]), ParseDigits(s[17..19]), ParseDigits(s[20..23]))
  }

  /** Reads a timestamp; `None` where `strtotime` would return false. */
  function Parse(s: string): Option<DateTime> {
    if Shaped(s) && Valid(Fields(s)) then Some(Fields(s)) else None
  }

  lemma RenderShape(t: DateTime)
    requires Valid(t)
    ensures var s := Render(t);
            && s[0..4] == Digits(t.year, 4) && s[4] == '-' && s[5..7] == Digits(t.month, 2) && s[7] == '-'
            && s[8..10] == Digits(t.day, 2) && s[10] == 'T' && s[11..13] == Digits(t.hour, 2) && s[13] == ':'
            && s[14..16] == Digits(t.minute, 2) && s[16] == ':' && s[17..19] == Digits(t.second, 2)
            && s[19] == '.' && s[20..23] == Digits(t.millis, 3) && s[23] == 'Z'
  {
  }

  /** `Render` written right-nested, one field at a time. */
  lemma RenderNested(t: DateTime)
    requires Valid(t)
    ensures Render(t)
            == Digits(t.year, 4) + ("-" + (Digits(t.month, 2) + ("-" + (Digits(t.day, 2) + ("T"
               + (Digits(t.hour, 2) + (":" + (Digits(t.minute, 2) + (":" + (Digits(t.second, 2) + ("."
               + (Digits(t.millis, 3) + "Z"))))))))))))
  {
  }

  /** Reading back a rendered timestamp gives the same fields. */
  lemma ParseRender(t: DateTime)
    requires Valid(t)
    ensures Parse(Render(t)) == Some(t)
  {
    RenderShape(t);
    ParseDigitsOfDigits(t.year, 4);
    ParseDigitsOfDigits(t.month, 2);
    ParseDigitsOfDigits(t.day, 2);
    ParseDigitsOfDigits(t.hour, 2);
    ParseDigitsOfDigits(t.minute, 2);
    ParseDigitsOfDigits(t.second, 2);
    ParseDigitsOfDigits(t.millis, 3);
  }

  /** A well-shaped string split at its separators. */
  lemma ShapedSplit(s: string)
    requires Shaped(s)
    ensures s == s[0..4] + ("-" + (s[5..7] + ("-" + (s[8..10] + ("T" + (s[11..13] + (":" + (s[14..16]
                 + (":" + (s[17..19] + ("." + (s[20..23] + "Z"))))))))))))
  {
    assert s[20..] == s[20..23] + "Z";
    assert s[19..] == "." + s[20..];
    assert s[17..] == s[17..19] + s[19..];
    assert s[16..] == ":" + s[17..];
    assert s[14..] == s[14..16] + s[16..];
    assert s[13..] == ":" + s[14..];
    assert s[11..] == s[11..13] + s[13..];
    assert s[10..] == "T" + s[11..];
    assert s[8..] == s[8..10] + s[10..];
    assert s[7..] == "-" + s[8..];
    assert s[5..] == s[5..7] + s[7..];
    assert s[4..] == "-" + s[5..];
    assert s == s[0..4] + s[4..];
  }

  /** Every accepted string is the rendering of the fields read from it. */
  lemma RenderParse(s: string)
    requires Parse(s).Some?
    ensures Render(Parse(s).value) == s
  {
    var t := Parse(s).value;
    DigitsOfParseDigits(s[0..4]);
    DigitsOfParseDigits(s[5..7]);
    DigitsOfParseDigits(s[8..10]);
    DigitsOfParseDigits(s[11..13]);
    DigitsOfParseDigits(s[14..16]);
    DigitsOfParseDigits(s[17..19]);
    DigitsOfParseDigits(s[20..23]);
    ShapedSplit(s);
    RenderNested(t);
  }

  // ---- Calendar arithmetic ----

  predicate IsLeap(y: int) {
    y % 4 == 0 && (y % 100 != 0 || y % 400 == 0)
  }

  function YearLength(y: int): int {
    if IsLeap(y) then 366 else 365
  }

  function DaysInMonth(y: int, m: int): int
    requires 1 <= m <= 12
  {
    if m == 2 then (if IsLeap(y) then 29 else 28)
    else if m == 4 || m == 6 || m == 9 || m == 11 then 30
    else 31
  }

  /** Leap years among 1 .. y-1 (counted negatively below year 1). */
  function LeapsBefore(y: int): int {
    (y - 1) / 4 - (y - 1) / 100 + (y - 1) / 400
  }

  /** Days from 1970-01-01 to January 1st of `y`, in closed form. */
  function DaysBeforeYear(y: int): int {
    365 * (y - 1970) + LeapsBefore(y) - LeapsBefore(1970)
  }

  /** Days from January 1st to the first of month `m`. Month 0 is the
      December before, which always has 31 days. */
  function DaysBeforeMonth(y: int, m: int): int
    requires 0 <= m <= 12
  {
    if m == 0 then -31
    else [0, 31, 59, 90, 120, 151, 181, 212, 243, 273, 304, 334][m - 1] + (if m > 2 && IsLeap(y) then 1 else 0)
  }

  /** Seconds since the epoch; the milliseconds do not contribute. Day and
      time fields are added linearly, which is how out-of-range values roll over. */
  function EpochSeconds(t: DateTime): int
    requires 0 <= t.month <= 12
  {
    (DaysBeforeYear(t.year) + DaysBeforeMonth(t.year, t.month) + t.day - 1) * 86400
    + t.hour * 3600 + t.minute * 60 + t.second
  }

  lemma DivStep(y: int, k: int)
    requires k == 4 || k == 100 || k == 400
    ensures y / k - (y - 1) / k == if y % k == 0 then 1 else 0
  {
    if k == 4 {
      assert y / 4 - (y - 1) / 4 == if y % 4 == 0 then 1 else 0;
    } else if k == 100 {
      assert y / 100 - (y - 1) / 100 == if y % 100 == 0 then 1 else 0;
    } else {
      assert y / 400 - (y - 1) / 400 == if y % 400 == 0 then 1 else 0;
    }
  }

  /** The closed form counts calendar days: it is zero in 1970 and grows by
      the length of each year. */
  lemma DaysBeforeYearCounts(y: int)
    ensures DaysBeforeYear(1970) == 0
    ensures DaysBeforeYear(y + 1) == DaysBeforeYear(y) + YearLength(y)
  {
    DivStep(y, 4);
    DivStep(y, 100);
    DivStep(y, 400);
  }

  /** Likewise within a year: each month adds its own length. */
  lemma DaysBeforeMonthCounts(y: int, m: int)
    requires 1 <= m < 12
    ensures DaysBeforeMonth(y, 1) == 0
    ensures DaysBeforeMonth(y, m + 1) == DaysBeforeMonth(y, m) + DaysInMonth(y, m)
  {
  }

  /** Month 00 is read as December of the previous year. */
  lemma MonthZeroRollsBack(t: DateTime)
    requires t.month == 0
    ensures EpochSeconds(t) == EpochSeconds(t.(year := t.year - 1, month := 12))
  {
    DaysBeforeYearCounts(t.year - 1);
  }

  /** Day 00 is read as the last day of the previous month. */
  lemma DayZeroRollsBack(t: DateTime)
    requires 1 <= t.month <= 12 && t.day == 0
    ensures t.month > 1 ==> EpochSeconds(t) == EpochSeconds(t.(month := t.month - 1, day := DaysInMonth(t.year, t.month - 1)))
    ensures t.month == 1 ==> EpochSeconds(t) == EpochSeconds(t.(year := t.year - 1, month := 12, day := 31))
  {
    if t.month > 1 {
      DaysBeforeMonthCounts(t.year, t.month - 1);
    } else {
      DaysBeforeYearCounts(t.year - 1);
    }
  }

  /** `strtotime('0000-00-00T00:00:00.000Z')` is November 30th of year -1. */
  lemma ZeroDate()
    ensures StrToTime(Render(DateTime(0, 0, 0, 0, 0, 0, 0))) == Some(-62169984000)
  {
    ParseRender(DateTime(0, 0, 0, 0, 0, 0, 0));
    assert DaysBeforeYear(0) == -719528;
  }

  /** `strtotime($s)` for the exchange's timestamp shape. */
  function StrToTime(s: string): (r: Option<int>)
    ensures r.Some? <==> Parse(s).Some?
    ensures r.Some? ==> r.value == EpochSeconds(Parse(s).value)
  {
    match Parse(s)
    case Some(t) => Some(EpochSeconds(t))
    case None => None
  }

  /** Two accepted timestamps that differ only in their milliseconds denote
      the same instant. */
  lemma MillisecondsDiscarded(s: string, s': string)
    requires Parse(s).Some? && Parse(s').Some?
    requires s[..20] == s'[..20]
    ensures StrToTime(s) == StrToTime(s')
  {
    assert s[0..4] == s[..20][0..4] == s'[0..4];
    assert s[5..7] == s[..20][5..7] == s'[5..7];
    assert s[8..10] == s[..20][8..10] == s'[8..10];
    assert s[11..13] == s[..20][11..13] == s'[11..13];
    assert s[14..16] == s[..20][14..16] == s'[14..16];
    assert s[17..19] == s[..20][17..19] == s'[17..19];
  }

  lemma SliceOfTwo(s: string, from: nat)
    requires from + 2 <= |s|
    ensures s[from..from + 2] == [s[from], s[from + 1]]
  {
  }

  lemma SliceOfThree(s: string, from: nat)
    requires from + 3 <= |s|
    ensures s[from..from + 3] == [s[from], s[from + 1], s[from + 2]]
  {
  }

  lemma SliceOfFour(s: string, from: nat)
    requires from + 4 <= |s|
    ensures s[from..from + 4] == [s[from], s[from + 1], s[from + 2], s[from + 3]]
  {
  }

  /** The date fields of the test timestamp, written out. */
  lemma ExpirationDateDigits()
    ensures Digits(2023, 4) == ['2', '0', '2', '3']
    ensures Digits(2, 2) == ['0', '2'] && Digits(19, 2) == ['1', '9']
  {
    assert Digits(20, 2) == ['2', '0'] by { assert Digits(2, 1) == ['2']; }
    assert Digits(202, 3) == ['2', '0', '2'];
    assert Digits(0, 1) == ['0'];
    assert Digits(1, 1) == ['1'];
  }

  /** The time fields of the test timestamp, written out. */
  lemma ExpirationTimeDigits()
    ensures Digits(7, 2) == ['0', '7'] && Digits(36, 2) == ['3', '6'] && Digits(225, 3) == ['2', '2', '5']
  {
    assert Digits(0, 1) == ['0'];
    assert Digits(3, 1) == ['3'];
    assert Digits(22, 2) == ['2', '2'] by { assert Digits(2, 1) == ['2']; }
  }

  lemma ExpirationYear(stamp: string)
    requires stamp == "2023-02-19T07:02:36.225Z"
    ensures stamp[0..4] == Digits(2023, 4)
  {
    ExpirationDateDigits();
    SliceOfFour(stamp, 0);
  }

  lemma ExpirationMonthDay(stamp: string)
    requires stamp == "2023-02-19T07:02:36.225Z"
    ensures stamp[5..7] == Digits(2, 2) && stamp[8..10] == Digits(19, 2)
  {
    ExpirationDateDigits();
    SliceOfTwo(stamp, 5);
    SliceOfTwo(stamp, 8);
  }

  lemma ExpirationHourMinute(stamp: string)
    requires stamp == "2023-02-19T07:02:36.225Z"
    ensures stamp[11..13] == Digits(7, 2) && stamp[14..16] == Digits(2, 2)
  {
    ExpirationDateDigits();
    ExpirationTimeDigits();
    SliceOfTwo(stamp, 11);
    SliceOfTwo(stamp, 14);
  }

  lemma ExpirationSecondMillis(stamp: string)
    requires stamp == "2023-02-19T07:02:36.225Z"
    ensures stamp[17..19] == Digits(36, 2) && stamp[20..23] == Digits(225, 3)
  {
    ExpirationTimeDigits();
    SliceOfTwo(stamp, 17);
    SliceOfThree(stamp, 20);
  }

  lemma ExpirationShape(stamp: string)
    requires stamp == "2023-02-19T07:02:36.225Z"
    ensures Shaped(stamp)
    ensures Fields(stamp) == DateTime(2023, 2, 19, 7, 2, 36, 225)
  {
    ExpirationYear(stamp);
    ExpirationMonthDay(stamp);
    ExpirationHourMinute(stamp);
    ExpirationSecondMillis(stamp);
    assert stamp[4] == '-' && stamp[7] == '-' && stamp[10] == 'T';
    assert stamp[13] == ':' && stamp[16] == ':' && stamp[19] == '.' && stamp[23] == 'Z';
    ParseDigitsOfDigits(2023, 4);
    ParseDigitsOfDigits(2, 2);
    ParseDigitsOfDigits(19, 2);
    ParseDigitsOfDigits(7, 2);
    ParseDigitsOfDigits(36, 2);
    ParseDigitsOfDigits(225, 3);
  }

  /** The expiration in the exchange test: 2023-02-19T07:02:36Z. */
  lemma TestExpiration()
    ensures StrToTime("2023-02-19T07:02:36.225Z") == Some(1676790156)
  {
    var stamp := "2023-02-19T07:02:36.225Z";
    ExpirationShape(stamp);
    ExpirationInstant();
  }

  /** 2023-02-19T07:02:36Z is 19407 days and 25356 seconds after the epoch. */
  lemma ExpirationInstant()
    ensures EpochSeconds(DateTime(2023, 2, 19, 7, 2, 36, 225)) == 1676790156
  {
    assert DaysBeforeYear(2023) == 19358;
    assert DaysBeforeMonth(2023, 2) == 31;
  }
}
