/**
 The proleptic Gregorian calendar behind shard dates: sections 5.1 and 5.6 and Appendix C of
 RFC 3339, with the formats and the arithmetic of Go's `time` package.
 */
module Calendar {
  import opened Wrappers
  import opened Lex
  import opened Decimals

  datatype Date = Date(year: int, month: int, day: int)

  predicate IsLeap(year: int) {
    year % 4 == 0 && (year % 100 != 0 || year % 400 == 0)
  }

  function DaysIn(year: int, month: int): (days: int)
    requires 1 <= month <= 12
    ensures 28 <= days <= 31
  {
    if month == 2 then if IsLeap(year) then 29 else 28
    else if month in {4, 6, 9, 11} then 30
    else 31
  }

  predicate IsDate(d: Date) {
    1 <= d.month <= 12 && 1 <= d.day <= DaysIn(d.year, d.month)
  }

  /** The day before, as one turns the pages of a calendar. */
  function Yesterday(d: Date): (r: Date)
    requires IsDate(d)
    ensures IsDate(r)
  {
    if d.day > 1 then d.(day := d.day - 1)
    else if d.month > 1 then Date(d.year, d.month - 1, DaysIn(d.year, d.month - 1))
    else Date(d.year - 1, 12, 31)
  }

  /** `AddDate(0, 0, -n)`. */
  function DaysAgo(d: Date, n: nat): (r: Date)
    requires IsDate(d)
    ensures IsDate(r)
  {
    if n == 0 then d else Yesterday(DaysAgo(d, n - 1))
  }

  // Day numbers

  /** The number of leap years from year 0 up to, but not including, `year`; negative before year 0. */
  function LeapYears(year: int): int {
    (year + 3) / 4 - (year + 99) / 100 + (year + 399) / 400
  }

  function YearStart(year: int): int {
    365 * year + LeapYears(year)
  }

  lemma YearLength(year: int)
    ensures YearStart(year + 1) == YearStart(year) + (if IsLeap(year) then 366 else 365)
  {
    Multiples4(year);
    Multiples100(year);
    Multiples400(year);
    CenturiesNest(year);
  }

  lemma Multiples4(n: int)
    ensures (n + 4) / 4 == (n + 3) / 4 + if n % 4 == 0 then 1 else 0
  {
  }

  lemma Multiples100(n: int)
    ensures (n + 100) / 100 == (n + 99) / 100 + if n % 100 == 0 then 1 else 0
  {
  }

  lemma Multiples400(n: int)
    ensures (n + 400) / 400 == (n + 399) / 400 + if n % 400 == 0 then 1 else 0
  {
  }

  /** Every century is a multiple of four, and every fourth century is a century. */
  lemma CenturiesNest(n: int)
    ensures n % 400 == 0 ==> n % 100 == 0
    ensures n % 100 == 0 ==> n % 4 == 0
  {
    if n % 400 == 0 {
      var k := n / 400;
      assert n == 100 * (4 * k);
      HundredDivides(4 * k);
    }
    if n % 100 == 0 {
      var k := n / 100;
      assert n == 4 * (25 * k);
      FourDivides(25 * k);
    }
  }

  lemma HundredDivides(k: int)
    ensures (100 * k) % 100 == 0
  {
  }

  lemma FourDivides(k: int)
    ensures (4 * k) % 4 == 0
  {
  }

  function MonthStart(year: int, month: int): (days: int)
    requires 1 <= month <= 13
    ensures 28 * (month - 1) <= days <= 31 * (month - 1)
    decreases month
  {
    if month == 1 then 0 else MonthStart(year, month - 1) + DaysIn(year, month - 1)
  }

  lemma YearHasAllMonths(year: int)
    ensures MonthStart(year, 13) == if IsLeap(year) then 366 else 365
  {
    assert MonthStart(year, 4) == 31 + DaysIn(year, 2) + 31;
    assert MonthStart(year, 7) == MonthStart(year, 4) + 91;
    assert MonthStart(year, 10) == MonthStart(year, 7) + 92;
    assert MonthStart(year, 13) == MonthStart(year, 10) + 92;
  }

  /** Days since 1 January of year 0. */
  function DayNumber(d: Date): int
    requires IsDate(d)
  {
    YearStart(d.year) + MonthStart(d.year, d.month) + d.day - 1
  }

  /** The closed formula counts days: one less for the day before, across months, years and leap days. */
  lemma YesterdayIsOneLess(d: Date)
    requires IsDate(d)
    ensures DayNumber(Yesterday(d)) == DayNumber(d) - 1
  {
    hide LeapYears, YearStart, IsLeap, DaysIn, MonthStart;
    if d.day == 1 {
      if d.month == 1 {
        YearLength(d.year - 1);
        YearHasAllMonths(d.year - 1);
        MonthLength(d.year - 1, 12);
        MonthLength(d.year, 0);
      } else {
        MonthLength(d.year, d.month - 1);
      }
    }
  }

  lemma MonthLength(year: int, month: int)
    requires 0 <= month <= 12
    ensures MonthStart(year, month + 1) == if month == 0 then 0 else MonthStart(year, month) + DaysIn(year, month)
  {
  }

  lemma {:induction false} DaysAgoSubtracts(d: Date, n: nat)
    requires IsDate(d)
    ensures DayNumber(DaysAgo(d, n)) == DayNumber(d) - n
  {
    if n > 0 {
      DaysAgoSubtracts(d, n - 1);
      YesterdayIsOneLess(DaysAgo(d, n - 1));
    }
  }

  // Order

  predicate Before(a: Date, b: Date) {
    a.year < b.year || (a.year == b.year && (a.month < b.month || (a.month == b.month && a.day < b.day)))
  }

  lemma {:induction false} MonthsAscend(year: int, m: int, n: int)
    requires 1 <= m < n <= 13
    ensures MonthStart(year, m) + DaysIn(year, m) <= MonthStart(year, n)
    decreases n
  {
    if m < n - 1 { MonthsAscend(year, m, n - 1); }
  }

  lemma {:induction false} YearsAscend(y: int, z: int)
    requires y < z
    ensures YearStart(y + 1) <= YearStart(z)
    decreases z - y
  {
    if y + 1 < z {
      YearsAscend(y, z - 1);
      YearLength(z - 1);
    }
  }

  lemma BeforeHasSmallerDayNumber(a: Date, b: Date)
    requires IsDate(a) && IsDate(b) && Before(a, b)
    ensures DayNumber(a) < DayNumber(b)
  {
    hide LeapYears, YearStart, IsLeap;
    if a.year < b.year {
      YearsAscend(a.year, b.year);
      YearLength(a.year);
      YearHasAllMonths(a.year);
      MonthsAscend(a.year, a.month, 13);
    } else if a.month < b.month {
      MonthsAscend(a.year, a.month, b.month);
    }
  }

  /** Day numbers order dates as year, month and day do, and no two dates share one. */
  lemma DayNumberOrder(a: Date, b: Date)
    requires IsDate(a) && IsDate(b)
    ensures Before(a, b) <==> DayNumber(a) < DayNumber(b)
    ensures a == b <==> DayNumber(a) == DayNumber(b)
  {
    if Before(a, b) { BeforeHasSmallerDayNumber(a, b); }
    if Before(b, a) { BeforeHasSmallerDayNumber(b, a); }
  }

  // Text

  /** `Format("2006-01-02")`: at least four digits for the year, and a sign before year 0. */
  function Format(d: Date): string
    requires IsDate(d)
  {
    Year(d.year) + "-" + Padded(d.month, 2) + "-" + Padded(d.day, 2)
  }

  function Year(year: int): string {
    var digits := if year < 0 then -year else year;
    (if year < 0 then "-" else "") + (if digits < 10000 then Padded(digits, 4) else Itoa(digits))
  }

  /** A date that fits the ten bytes of a shard's name. */
  predicate IsShardDate(d: Date) {
    IsDate(d) && 0 <= d.year <= 9999
  }

  /** `time.Parse("2006-01-02", s)`. */
  function Parse(s: string): (r: Option<Date>)
    ensures r.Some? ==> IsShardDate(r.value)
  {
    if |s| == 10 && AllDigits(s[..4]) && s[4] == '-' && AllDigits(s[5..7]) && s[7] == '-' && AllDigits(s[8..]) then
      var d := Date(Number(s[..4]), Number(s[5..7]), Number(s[8..]));
      PaddedOfNumber(s[..4]);
      assert Power(4) == 10000;
      if IsDate(d) then Some(d) else None
    else None
  }

  lemma FormatFields(d: Date)
    requires IsShardDate(d)
    ensures var s := Format(d);
            && |s| == 10 && s[4] == '-' && s[7] == '-'
            && s[..4] == Padded(d.year, 4) && s[5..7] == Padded(d.month, 2) && s[8..] == Padded(d.day, 2)
  {
    hide Padded, IsLeap;
    var year, month, day := Padded(d.year, 4), Padded(d.month, 2), Padded(d.day, 2);
    assert Year(d.year) == year by { assert "" + year == year; }
    assert Format(d) == year + "-" + month + "-" + day;
  }

  lemma ParseOfFormat(d: Date)
    requires IsShardDate(d)
    ensures Parse(Format(d)) == Some(d)
  {
    hide Format, Padded, Number, IsLeap;
    FormatFields(d);
    assert Power(4) == 10000 && Power(2) == 100;
    NumberOfPadded(d.year, 4);
    NumberOfPadded(d.month, 2);
    NumberOfPadded(d.day, 2);
  }

  lemma FormatOfParse(s: string)
    requires Parse(s).Some?
    ensures Format(Parse(s).value) == s
  {
    hide Number, Padded, IsLeap;
    var d := Parse(s).value;
    FormatFields(d);
    PaddedOfNumber(s[..4]);
    PaddedOfNumber(s[5..7]);
    PaddedOfNumber(s[8..]);
    assert s == s[..4] + "-" + s[5..7] + "-" + s[8..];
  }

  /**
   The order of the strings is the order of the days. The second date may lie before year 0, as a
   retention cutoff can; its sign then sorts before every digit.
   */
  lemma StringOrderIsDayOrder(a: Date, b: Date)
    requires IsShardDate(a) && IsDate(b) && b.year <= 9999
    ensures Less(Format(a), Format(b)) <==> DayNumber(a) < DayNumber(b)
  {
    DayNumberOrder(a, b);
    if b.year < 0 {
      FormatFields(a);
      assert IsDigit(Format(a)[0]) && Format(b)[0] == '-';
    } else {
      FieldsInOrder(a, b);
    }
  }

  lemma FieldsInOrder(a: Date, b: Date)
    requires IsShardDate(a) && IsShardDate(b)
    ensures Less(Format(a), Format(b)) <==> Before(a, b)
  {
    hide Less, Padded;
    assert Power(4) == 10000 && Power(2) == 100;
    PaddedOrder(a.year, b.year, 4);
    PaddedOrder(a.month, b.month, 2);
    PaddedOrder(a.day, b.day, 2);
    var x, y := "-" + Padded(a.day, 2), "-" + Padded(b.day, 2);
    FieldByField("-", "-", Padded(a.day, 2), Padded(b.day, 2));
    FieldByField(Padded(a.month, 2), Padded(b.month, 2), x, y);
    FieldByField("-", "-", Padded(a.month, 2) + x, Padded(b.month, 2) + y);
    FieldByField(Padded(a.year, 4), Padded(b.year, 4), "-" + (Padded(a.month, 2) + x), "-" + (Padded(b.month, 2) + y));
    NotLessThanItself("-");
    assert Format(a) == Padded(a.year, 4) + ("-" + (Padded(a.month, 2) + x));
    assert Format(b) == Padded(b.year, 4) + ("-" + (Padded(b.month, 2) + y));
  }

  lemma NotLessThanItself(s: string)
    ensures !Less(s, s)
  {
    Trichotomy(s, s);
  }

  // Timestamps

  datatype Instant = Instant(date: Date, hour: nat, minute: nat, second: nat, micros: nat)

  predicate IsInstant(t: Instant) {
    IsShardDate(t.date) && t.hour < 24 && t.minute < 60 && t.second < 60 && t.micros < 1000000
  }

  /** `Format("2006-01-02T15:04:05.000000Z")` of a UTC time. */
  function Timestamp(t: Instant): string
    requires IsInstant(t)
  {
    Format(t.date) + "T" + Padded(t.hour, 2) + ":" + Padded(t.minute, 2) + ":" + Padded(t.second, 2) + "."
    + Padded(t.micros, 6) + "Z"
  }

  /** For example. */
  lemma TimestampsLookLikeThis()
    ensures Timestamp(Instant(Date(2026, 6, 5), 1, 2, 3, 45)) == "2026-06-05T01:02:03.000045Z"
  {
    hide Padded, Format;
    PaddedLooksLikeThis();
    FormatLooksLikeThis();
  }

  lemma FormatLooksLikeThis()
    ensures Format(Date(2026, 6, 5)) == "2026-06-05"
  {
    hide Padded;
    PaddedLooksLikeThis();
  }

  lemma PaddedLooksLikeThis()
    ensures Padded(2026, 4) == "2026" && Padded(6, 2) == "06" && Padded(5, 2) == "05"
    ensures Padded(1, 2) == "01" && Padded(2, 2) == "02" && Padded(3, 2) == "03" && Padded(45, 6) == "000045"
  {
    hide Padded;
    PaddedOneMore(0, 0);
    PaddedOneMore(2, 0);
    PaddedOneMore(4, 0);
    PaddedOneMore(0, 1);
    PaddedOneMore(20, 1);
    PaddedOneMore(0, 2);
    PaddedOneMore(202, 2);
    PaddedOneMore(0, 3);
    PaddedOneMore(2026, 3);
    PaddedOneMore(1, 1);
    PaddedOneMore(2, 1);
    PaddedOneMore(3, 1);
    PaddedOneMore(5, 1);
    PaddedOneMore(6, 1);
    PaddedOneMore(4, 4);
    PaddedOneMore(45, 5);
  }

  lemma PaddedOneMore(n: nat, width: nat)
    ensures Padded(n, 0) == "" && Padded(n, width + 1) == Padded(n / 10, width) + [DigitOf(n % 10)]
  {
  }

  /** Microseconds since the start of year 0. */
  function Microseconds(t: Instant): int
    requires IsInstant(t)
  {
    86400000000 * DayNumber(t.date) + MicrosOfDay(t)
  }

  function MicrosOfDay(t: Instant): (n: nat)
    requires IsInstant(t)
    ensures n < 86400000000
  {
    1000000 * (60 * (60 * t.hour + t.minute) + t.second) + t.micros
  }

  /** Fields of fixed width with a separator in between compare one by one. */
  lemma NextField(a: string, b: string, separator: string, x: string, y: string)
    requires |a| == |b|
    ensures Less(a + separator + x, b + separator + y) <==> Less(a, b) || (a == b && Less(x, y))
  {
    FieldByField(separator, separator, x, y);
    NotLessThanItself(separator);
    FieldByField(a, b, separator + x, separator + y);
    assert a + separator + x == a + (separator + x) && b + separator + y == b + (separator + y);
  }

  /** The reader sorts timestamps as strings; that is sorting by time. */
  lemma TimestampOrderIsTimeOrder(t: Instant, u: Instant)
    requires IsInstant(t) && IsInstant(u)
    ensures Less(Timestamp(t), Timestamp(u)) <==> Microseconds(t) < Microseconds(u)
    ensures Timestamp(t) == Timestamp(u) <==> Microseconds(t) == Microseconds(u)
  {
    hide Less, Padded, Format, DayNumber;
    TimestampFields(t, u);
    TimestampFields(u, t);
    Trichotomy(Timestamp(t), Timestamp(u));
    DayNumberOrder(t.date, u.date);
    DayNumberOrder(u.date, t.date);
    ClockOrder(t, u);
    ClockOrder(u, t);
  }

  predicate EarlierClock(t: Instant, u: Instant) {
    || t.hour < u.hour
    || (t.hour == u.hour && (t.minute < u.minute
        || (t.minute == u.minute && (t.second < u.second || (t.second == u.second && t.micros < u.micros)))))
  }

  lemma ClockOrder(t: Instant, u: Instant)
    requires IsInstant(t) && IsInstant(u)
    ensures EarlierClock(t, u) <==> MicrosOfDay(t) < MicrosOfDay(u)
  {
  }

  lemma TimestampFields(t: Instant, u: Instant)
    requires IsInstant(t) && IsInstant(u)
    ensures Less(Timestamp(t), Timestamp(u)) <==> Before(t.date, u.date) || (t.date == u.date && EarlierClock(t, u))
  {
    hide Less, Padded, Format;
    assert Power(2) == 100 && Power(6) == 1000000;
    PaddedOrder(t.hour, u.hour, 2);
    PaddedOrder(t.minute, u.minute, 2);
    PaddedOrder(t.second, u.second, 2);
    PaddedOrder(t.micros, u.micros, 6);
    var a, b := Padded(t.micros, 6) + "Z", Padded(u.micros, 6) + "Z";
    FieldByField(Padded(t.micros, 6), Padded(u.micros, 6), "Z", "Z");
    NotLessThanItself("Z");
    var c, d := Padded(t.second, 2) + "." + a, Padded(u.second, 2) + "." + b;
    NextField(Padded(t.second, 2), Padded(u.second, 2), ".", a, b);
    var e, f := Padded(t.minute, 2) + ":" + c, Padded(u.minute, 2) + ":" + d;
    NextField(Padded(t.minute, 2), Padded(u.minute, 2), ":", c, d);
    var g, h := Padded(t.hour, 2) + ":" + e, Padded(u.hour, 2) + ":" + f;
    NextField(Padded(t.hour, 2), Padded(u.hour, 2), ":", e, f);
    FormatIsFixedWidth(t.date, u.date);
    NextField(Format(t.date), Format(u.date), "T", g, h);
    TimestampFromRight(t);
    TimestampFromRight(u);
  }

  lemma TimestampFromRight(t: Instant)
    requires IsInstant(t)
    ensures Timestamp(t) == Format(t.date) + "T" + (Padded(t.hour, 2) + ":" + (Padded(t.minute, 2) + ":"
                            + (Padded(t.second, 2) + "." + (Padded(t.micros, 6) + "Z"))))
  {
    hide Padded, Format;
  }

  lemma FormatIsFixedWidth(a: Date, b: Date)
    requires IsShardDate(a) && IsShardDate(b)
    ensures |Format(a)| == |Format(b)| == 10
    ensures Less(Format(a), Format(b)) <==> Before(a, b)
    ensures Format(a) == Format(b) <==> a == b
  {
    FormatFields(a);
    FormatFields(b);
    FieldsInOrder(a, b);
    ParseOfFormat(a);
    ParseOfFormat(b);
  }
}
