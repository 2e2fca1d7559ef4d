/** UTC timestamps as the database stores them: RFC 3339 text with a four-digit year, compared byte by byte.
    An instant is a number of whole seconds since 0000-01-01T00:00:00Z. */
module Rfc3339 {
  import opened Prelude

  const NANOS: nat := 1_000_000_000
  const DAY: nat := 86400
  /** Midnight of 1970-01-01, the origin of `time.Time.Unix`. */
  const UNIX_EPOCH: nat := 719528 * DAY
  /** The first instant whose year needs five digits. */
  const END_OF_TEXT: nat := 3652425 * DAY
  /** Go's zero `time.Time`, which a failed parse leaves behind: 0001-01-01T00:00:00Z. */
  const ZERO_TIME: nat := 366 * DAY

  // ---------- byte order on text ----------

  /** The order of SQLite's BINARY collation. */
  predicate TextLess(a: string, b: string) {
    if b == "" then false
    else if a == "" then true
    else a[0] < b[0] || (a[0] == b[0] && TextLess(a[1..], b[1..]))
  }

  predicate TextAtMost(a: string, b: string) {
    a == b || TextLess(a, b)
  }

  lemma {:induction false} TextLessAsymmetric(a: string, b: string)
    requires TextLess(a, b)
    ensures !TextLess(b, a) && a != b
  {
    if a != "" && a[0] == b[0] {
      TextLessAsymmetric(a[1..], b[1..]);
    }
  }

  lemma {:induction false} TextLessTransitive(a: string, b: string, c: string)
    requires TextLess(a, b) && TextLess(b, c)
    ensures TextLess(a, c)
  {
    if a != "" && a[0] == b[0] == c[0] {
      TextLessTransitive(a[1..], b[1..], c[1..]);
    }
  }

  lemma {:induction false} TextLessTotal(a: string, b: string)
    ensures a == b || TextLess(a, b) || TextLess(b, a)
  {
    if a != "" && b != "" && a[0] == b[0] {
      TextLessTotal(a[1..], b[1..]);
      assert a == [a[0]] + a[1..] && b == [b[0]] + b[1..];
    }
  }

  /** Fields of equal width are compared first; only a tie looks further. */
  lemma {:induction false} TextLessFields(p: string, x: string, q: string, y: string)
    requires |p| == |q|
    ensures TextLess(p + x, q + y) <==> TextLess(p, q) || (p == q && TextLess(x, y))
  {
    if p == "" {
      assert p + x == x && q + y == y;
    } else {
      assert (p + x)[1..] == p[1..] + x && (q + y)[1..] == q[1..] + y;
      TextLessFields(p[1..], x, q[1..], y);
      assert p == [p[0]] + p[1..] && q == [q[0]] + q[1..];
    }
  }

  // ---------- fixed-width decimal fields ----------

  function Pow10(k: nat): (p: nat)
    ensures p > 0
  {
    if k == 0 then 1 else 10 * Pow10(k - 1)
  }

  function Digit(d: nat): char
    requires d < 10
  {
    '0' + d as char
  }

  /** The low `width` decimal digits of `n`. */
  function Pad(n: nat, width: nat): (s: string)
    ensures |s| == width
  {
    if width == 0 then "" else Pad(n / 10, width - 1) + [Digit(n % 10)]
  }

  function ParsePad(s: string): Option<nat> {
    if s == "" then Some(0)
    else
      var last := s[|s| - 1];
      var front := ParsePad(s[..|s| - 1]);
      if front.None? || !('0' <= last <= '9') then None else Some(10 * front.value + (last - '0') as nat)
  }

  lemma {:induction false} PadRoundTrip(n: nat, width: nat)
    requires n < Pow10(width)
    ensures ParsePad(Pad(n, width)) == Some(n)
  {
    if width == 0 {
    } else {
      PadRoundTrip(n / 10, width - 1);
      assert Pad(n, width)[..width - 1] == Pad(n / 10, width - 1);
    }
  }

  lemma {:induction false} PadOrder(m: nat, n: nat, width: nat)
    requires m < n < Pow10(width)
    ensures TextLess(Pad(m, width), Pad(n, width))
  {
    if width == 0 {
    } else {
      var low, high := [Digit(m % 10)], [Digit(n % 10)];
      TextLessFields(Pad(m / 10, width - 1), low, Pad(n / 10, width - 1), high);
      if m / 10 < n / 10 {
        PadOrder(m / 10, n / 10, width - 1);
      }
    }
  }

  // ---------- the Gregorian calendar ----------

  predicate IsLeap(year: nat) {
    year % 4 == 0 && (year % 100 != 0 || year % 400 == 0)
  }

  function YearLength(year: nat): nat {
    if IsLeap(year) then 366 else 365
  }

  /** Days before January 1 of `year`, counted from January 1 of year 0. */
  function YearStart(year: nat): nat {
    365 * year + (year + 3) / 4 - (year + 99) / 100 + (year + 399) / 400
  }

  lemma NextFourth(year: nat)
    ensures (year + 4) / 4 == (year + 3) / 4 + if year % 4 == 0 then 1 else 0
  {
  }

  lemma NextHundredth(year: nat)
    ensures (year + 100) / 100 == (year + 99) / 100 + if year % 100 == 0 then 1 else 0
  {
  }

  lemma NextFourHundredth(year: nat)
    ensures (year + 400) / 400 == (year + 399) / 400 + if year % 400 == 0 then 1 else 0
  {
  }

  lemma LeapRule(year: nat)
    ensures (if IsLeap(year) then 1 else 0)
         == (if year % 4 == 0 then 1 else 0) - (if year % 100 == 0 then 1 else 0) + if year % 400 == 0 then 1 else 0
  {
    assert year % 400 == 0 ==> year % 100 == 0;
    assert year % 100 == 0 ==> year % 4 == 0;
  }

  lemma NextYear(year: nat)
    ensures YearStart(year + 1) == YearStart(year) + YearLength(year)
  {
    NextFourth(year);
    NextHundredth(year);
    NextFourHundredth(year);
    LeapRule(year);
  }

  lemma {:induction false} YearStartMonotone(a: nat, b: nat)
    requires a <= b
    ensures YearStart(a) <= YearStart(b)
    decreases b - a
  {
  }

  function MonthLength(year: nat, month: nat): (days: nat)
    ensures 28 <= days <= 31
  {
    if month == 2 then (if IsLeap(year) then 29 else 28)
    else if month == 4 || month == 6 || month == 9 || month == 11 then 30
    else 31
  }

  /** Days of `year` before the first of `month`; `MonthStart(year, 13)` is the length of the year. */
  function MonthStart(year: nat, month: nat): nat
    requires 1 <= month <= 13
  {
    if month == 1 then 0 else MonthStart(year, month - 1) + MonthLength(year, month - 1)
  }

  lemma YearIsTwelveMonths(year: nat)
    ensures MonthStart(year, 13) == YearLength(year)
  {
    assert MonthStart(year, 2) == MonthStart(year, 1) + 31;
    assert MonthStart(year, 3) == 31 + MonthLength(year, 2);
    assert MonthStart(year, 5) == MonthStart(year, 3) + 31 + 30;
    assert MonthStart(year, 7) == MonthStart(year, 5) + 31 + 30;
    assert MonthStart(year, 9) == MonthStart(year, 7) + 31 + 31;
    assert MonthStart(year, 11) == MonthStart(year, 9) + 30 + 31;
    assert MonthStart(year, 13) == MonthStart(year, 11) + 30 + 31;
  }

  datatype Date = Date(year: nat, month: nat, day: nat)

  predicate ValidDate(date: Date) {
    1 <= date.month <= 12 && 1 <= date.day <= MonthLength(date.year, date.month)
  }

  /** The date `day` days after the first of `month`, within `year`. */
  function MonthFrom(year: nat, day: nat, month: nat): Date
    decreases 12 - month
  {
    if month >= 12 || day < MonthLength(year, month) then Date(year, month, day + 1)
    else MonthFrom(year, day - MonthLength(year, month), month + 1)
  }

  /** The date `day` days after January 1 of `year`. */
  function DateFrom(day: nat, year: nat): Date
    decreases day
  {
    if day < YearLength(year) then MonthFrom(year, day, 1) else DateFrom(day - YearLength(year), year + 1)
  }

  function DateOf(day: nat): Date {
    DateFrom(day, 0)
  }

  /** The reference: days before `date`, by counting whole years, whole months and days. */
  function DayNumber(date: Date): nat
    requires ValidDate(date)
  {
    YearStart(date.year) + MonthStart(date.year, date.month) + date.day - 1
  }

  lemma {:induction false} MonthFromCorrect(year: nat, day: nat, month: nat)
    requires 1 <= month <= 12 && MonthStart(year, month) + day < YearLength(year)
    ensures var date := MonthFrom(year, day, month);
      date.year == year && ValidDate(date)
          && MonthStart(year, date.month) + date.day == MonthStart(year, month) + day + 1
    decreases 12 - month
  {
    if month == 12 {
      YearIsTwelveMonths(year);
    } else if day >= MonthLength(year, month) {
      MonthFromCorrect(year, day - MonthLength(year, month), month + 1);
    }
  }

  lemma {:induction false} DateFromCorrect(day: nat, year: nat)
    ensures ValidDate(DateFrom(day, year)) && DayNumber(DateFrom(day, year)) == YearStart(year) + day
    decreases day
  {
    if day < YearLength(year) {
      MonthFromCorrect(year, day, 1);
    } else {
      NextYear(year);
      DateFromCorrect(day - YearLength(year), year + 1);
    }
  }

  /** The date found for a day is a date of the calendar, and counting days up to it leads back to the day. */
  lemma DateOfCorrect(day: nat)
    ensures ValidDate(DateOf(day)) && DayNumber(DateOf(day)) == day
  {
    DateFromCorrect(day, 0);
  }

  lemma {:induction false} MonthStartMonotone(year: nat, a: nat, b: nat)
    requires 1 <= a <= b <= 13
    ensures MonthStart(year, a) <= MonthStart(year, b)
    decreases b - a
  {
    if a == b {
    } else {
      MonthStartMonotone(year, a + 1, b);
    }
  }

  lemma DayNumberInYear(date: Date)
    requires ValidDate(date)
    ensures YearStart(date.year) <= DayNumber(date) < YearStart(date.year + 1)
    ensures MonthStart(date.year, date.month) <= DayNumber(date) - YearStart(date.year)
                                              < MonthStart(date.year, date.month + 1)
  {
    NextYear(date.year);
    YearIsTwelveMonths(date.year);
    MonthStartMonotone(date.year, date.month + 1, 13);
  }

  /** A later day has a later date, field by field. */
  lemma DateOrder(a: Date, b: Date)
    requires ValidDate(a) && ValidDate(b) && DayNumber(a) < DayNumber(b)
    ensures a.year < b.year || (a.year == b.year && (a.month < b.month || (a.month == b.month && a.day < b.day)))
  {
    DayNumberInYear(a);
    DayNumberInYear(b);
    YearStartMonotone(if b.year < a.year then b.year + 1 else b.year, if b.year < a.year then a.year else b.year);
    MonthStartMonotone(a.year, if b.month < a.month then b.month + 1 else b.month,
                       if b.month < a.month then a.month else b.month);
  }

  lemma YearLowerBound(day: nat, low: nat)
    requires YearStart(low) <= day
    ensures low <= DateOf(day).year
  {
    var found := DateOf(day).year;
    DateOfCorrect(day);
    DayNumberInYear(DateOf(day));
    YearStartMonotone(if found < low then found + 1 else low, if found < low then low else found);
  }

  lemma YearUpperBound(day: nat, high: nat)
    requires day < YearStart(high)
    ensures DateOf(day).year < high
  {
    var found := DateOf(day).year;
    DateOfCorrect(day);
    DayNumberInYear(DateOf(day));
    YearStartMonotone(high, if found < high then high else found);
  }

  lemma YearHasFourDigits(day: nat)
    requires day < 3652425
    ensures DateOf(day).year < 10000
  {
    YearUpperBound(day, 10000);
  }

  // ---------- text ----------

  function YearText(year: nat): (s: string)
    ensures year < 10000 ==> |s| == 4
    ensures |s| >= 4
  {
    if year < 10000 then Pad(year, 4) else YearText(year / 10) + [Digit(year % 10)]
  }

  /** A leading field, then two two-digit fields, each after a separator. */
  function Triple(head: string, sep: string, second: nat, third: nat): (s: string)
    requires |sep| == 1
    ensures |s| == |head| + 6
  {
    head + (sep + (Pad(second, 2) + (sep + Pad(third, 2))))
  }

  function DateText(date: Date): (s: string)
    ensures date.year < 10000 ==> |s| == 10
  {
    Triple(YearText(date.year), "-", date.month, date.day)
  }

  function ClockText(second: nat): (s: string)
    requires second < DAY
    ensures |s| == 8
  {
    Triple(Pad(second / 3600, 2), ":", second / 60 % 60, second % 60)
  }

  /** `t.UTC().Format(time.RFC3339)`. */
  function Format(t: nat): string {
    DateText(DateOf(t / DAY)) + ("T" + (ClockText(t % DAY) + "Z"))
  }

  lemma Pow10Values()
    ensures Pow10(2) == 100 && Pow10(4) == 10000
  {
  }

  lemma TripleOrder(head: string, head': string, sep: string, b: nat, b': nat, c: nat, c': nat)
    requires |head| == |head'| && |sep| == 1 && b < 100 && b' < 100 && c < 100 && c' < 100
    requires TextLess(head, head') || (head == head' && (b < b' || (b == b' && c < c')))
    ensures TextLess(Triple(head, sep, b, c), Triple(head', sep, b', c'))
  {
    Pow10Values();
    var tail, tail' := sep + Pad(c, 2), sep + Pad(c', 2);
    TextLessFields(head, sep + (Pad(b, 2) + tail), head', sep + (Pad(b', 2) + tail'));
    TextLessFields(sep, Pad(b, 2) + tail, sep, Pad(b', 2) + tail');
    TextLessFields(Pad(b, 2), tail, Pad(b', 2), tail');
    TextLessFields(sep, Pad(c, 2), sep, Pad(c', 2));
    if !TextLess(head, head') && b < b' {
      PadOrder(b, b', 2);
    } else if !TextLess(head, head') {
      PadOrder(c, c', 2);
    }
  }

  lemma DateTextOrder(a: Date, b: Date)
    requires ValidDate(a) && ValidDate(b) && DayNumber(a) < DayNumber(b)
    requires a.year < 10000 && b.year < 10000
    ensures TextLess(DateText(a), DateText(b))
  {
    Pow10Values();
    DateOrder(a, b);
    if a.year < b.year {
      PadOrder(a.year, b.year, 4);
    }
    TripleOrder(YearText(a.year), YearText(b.year), "-", a.month, b.month, a.day, b.day);
  }

  lemma ClockParts(second: nat)
    requires second < DAY
    ensures second / 3600 < 24 && second / 60 % 60 < 60 && second % 60 < 60
    ensures second / 3600 * 3600 + second / 60 % 60 * 60 + second % 60 == second
  {
  }

  lemma ClockTextOrder(a: nat, b: nat)
    requires a < b < DAY
    ensures TextLess(ClockText(a), ClockText(b))
  {
    var hour, hour' := a / 3600, b / 3600;
    ClockParts(a);
    ClockParts(b);
    if hour < hour' {
      Pow10Values();
      PadOrder(hour, hour', 2);
    }
    TripleOrder(Pad(hour, 2), Pad(hour', 2), ":", a / 60 % 60, b / 60 % 60, a % 60, b % 60);
  }

  lemma LaterIsGreaterText(a: nat, b: nat)
    requires a < b < END_OF_TEXT
    ensures TextLess(Format(a), Format(b))
  {
    var dayA, dayB := a / DAY, b / DAY;
    YearHasFourDigits(dayA);
    YearHasFourDigits(dayB);
    DateOfCorrect(dayA);
    DateOfCorrect(dayB);
    TextLessFields(DateText(DateOf(dayA)), "T" + (ClockText(a % DAY) + "Z"),
                   DateText(DateOf(dayB)), "T" + (ClockText(b % DAY) + "Z"));
    TextLessFields("T", ClockText(a % DAY) + "Z", "T", ClockText(b % DAY) + "Z");
    TextLessFields(ClockText(a % DAY), "Z", ClockText(b % DAY), "Z");
    if dayA < dayB {
      DateTextOrder(DateOf(dayA), DateOf(dayB));
    } else {
      assert dayA == dayB && a % DAY < b % DAY;
      ClockTextOrder(a % DAY, b % DAY);
    }
  }

  /** For years 0000 to 9999 the byte order of stored timestamps is the order of time, both ways. */
  lemma TextOrderIsTimeOrder(a: nat, b: nat)
    requires a < END_OF_TEXT && b < END_OF_TEXT
    ensures TextLess(Format(a), Format(b)) <==> a < b
    ensures TextAtMost(Format(a), Format(b)) <==> a <= b
    ensures Format(a) == Format(b) <==> a == b
  {
    if a < b {
      LaterIsGreaterText(a, b);
      TextLessAsymmetric(Format(a), Format(b));
    } else if b < a {
      LaterIsGreaterText(b, a);
      TextLessAsymmetric(Format(b), Format(a));
    } else if TextLess(Format(a), Format(b)) {
      TextLessAsymmetric(Format(a), Format(b));
    }
  }

  /** Beyond the year 9999 the two orders part: every instant of the years 10000 to 19999 sorts before every
      instant of the years 2000 to 9999. */
  lemma TextOrderEndsAtYear10000(t: nat, late: nat)
    requires YearStart(2000) <= t / DAY && t < END_OF_TEXT <= late && late / DAY < YearStart(20000)
    ensures t < late && TextLess(Format(late), Format(t))
  {
    var year, lateYear := DateOf(t / DAY).year, DateOf(late / DAY).year;
    YearLowerBound(t / DAY, 2000);
    YearUpperBound(t / DAY, 10000);
    YearLowerBound(late / DAY, 10000);
    YearUpperBound(late / DAY, 20000);
    FirstDigit(year);
    LateFirstDigit(lateYear);
    YearTextHead(t, year);
    YearTextHead(late, lateYear);
  }

  lemma LateFirstDigit(year: nat)
    requires 10000 <= year < 20000
    ensures YearText(year)[0] == '1'
  {
    FirstDigit(year / 10);
    assert YearText(year) == YearText(year / 10) + [Digit(year % 10)];
  }

  lemma YearTextHead(t: nat, year: nat)
    requires DateOf(t / DAY).year == year
    ensures Format(t) != "" && YearText(year) != "" && Format(t)[0] == YearText(year)[0]
  {
  }

  lemma FirstDigit(year: nat)
    requires year < 10000
    ensures YearText(year)[0] == Digit(year / 10 / 10 / 10)
  {
    var y1 := year / 10;
    var y2 := y1 / 10;
    var y3 := y2 / 10;
    assert Pad(y3, 1) == Pad(y3 / 10, 0) + [Digit(y3)];
    assert Pad(y2, 2) == Pad(y3, 1) + [Digit(y2 % 10)];
    assert Pad(y1, 3) == Pad(y2, 2) + [Digit(y1 % 10)];
    assert Pad(year, 4) == Pad(y1, 3) + [Digit(year % 10)];
  }

  // ---------- parsing ----------

  function ParseDate(s: string): (date: Option<Date>)
    requires |s| == 10
    ensures date.Some? ==> ValidDate(date.value)
  {
    var year, month, day := ParsePad(s[..4]), ParsePad(s[5..7]), ParsePad(s[8..10]);
    if s[4] != '-' || s[7] != '-' || year.None? || month.None? || day.None? then None
    else
      var date := Date(year.value, month.value, day.value);
      if ValidDate(date) then Some(date) else None
  }

  function ParseClock(s: string): Option<nat>
    requires |s| == 8
  {
    var hour, minute, second := ParsePad(s[..2]), ParsePad(s[3..5]), ParsePad(s[6..8]);
    if s[2] != ':' || s[5] != ':' || hour.None? || minute.None? || second.None? then None
    else if hour.value >= 24 || minute.value >= 60 || second.value >= 60 then None
    else Some(hour.value * 3600 + minute.value * 60 + second.value)
  }

  /** `time.Parse(time.RFC3339, s)` on the only form ever stored: four-digit year, whole seconds, UTC. */
  function Parse(s: string): Option<nat> {
    if |s| != 20 || s[10] != 'T' || s[19] != 'Z' then None
    else
      var date, clock := ParseDate(s[..10]), ParseClock(s[11..19]);
      if date.None? || clock.None? then None else Some(DayNumber(date.value) * DAY + clock.value)
  }

  /** The callers drop the parse error, so text that does not parse reads as Go's zero time. */
  function ReadTime(s: string): nat {
    match Parse(s) case Some(t) => t case None => ZERO_TIME
  }

  lemma TripleFields(head: string, sep: string, b: nat, c: nat)
    requires |sep| == 1
    ensures var s, n := Triple(head, sep, b, c), |head|;
      s[..n] == head && s[n] == sep[0] && s[n + 1..n + 3] == Pad(b, 2) && s[n + 3] == sep[0]
          && s[n + 4..n + 6] == Pad(c, 2)
  {
  }

  lemma DateRoundTrip(date: Date)
    requires ValidDate(date) && date.year < 10000
    ensures ParseDate(DateText(date)) == Some(date)
  {
    TripleFields(YearText(date.year), "-", date.month, date.day);
    Pow10Values();
    PadRoundTrip(date.year, 4);
    PadRoundTrip(date.month, 2);
    PadRoundTrip(date.day, 2);
  }

  lemma ClockRoundTrip(second: nat)
    requires second < DAY
    ensures ParseClock(ClockText(second)) == Some(second)
  {
    var hour, minute, rest := second / 3600, second / 60 % 60, second % 60;
    ClockParts(second);
    TripleFields(Pad(hour, 2), ":", minute, rest);
    Pow10Values();
    PadRoundTrip(hour, 2);
    PadRoundTrip(minute, 2);
    PadRoundTrip(rest, 2);
  }

  lemma ParseParts(s: string, d: string, c: string, date: Date, clock: nat)
    requires |d| == 10 && |c| == 8 && s == d + ("T" + (c + "Z"))
    requires ParseDate(d) == Some(date) && ParseClock(c) == Some(clock)
    ensures Parse(s) == Some(DayNumber(date) * DAY + clock)
    ensures ReadTime(s) == DayNumber(date) * DAY + clock
  {
    assert s[..10] == d && s[11..19] == c;
  }

  lemma FormatParts(t: nat) returns (d: string, c: string, date: Date, clock: nat)
    requires t < END_OF_TEXT
    ensures |d| == 10 && |c| == 8 && Format(t) == d + ("T" + (c + "Z"))
    ensures ParseDate(d) == Some(date) && ParseClock(c) == Some(clock)
    ensures DayNumber(date) * DAY + clock == t
  {
    date, clock := DateOf(t / DAY), t % DAY;
    DateOfCorrect(t / DAY);
    YearHasFourDigits(t / DAY);
    DateRoundTrip(date);
    ClockRoundTrip(clock);
    d, c := DateText(date), ClockText(clock);
  }

  /** Reading back a stored timestamp gives the instant that was written. */
  lemma ParseRoundTrip(t: nat)
    requires t < END_OF_TEXT
    ensures Parse(Format(t)) == Some(t)
    ensures ReadTime(Format(t)) == t
  {
    var d, c, date, clock := FormatParts(t);
    ParseParts(Format(t), d, c, date, clock);
  }

  // ---------- the text itself ----------

  lemma EpochsAreDates()
    ensures DayNumber(Date(1970, 1, 1)) * DAY == UNIX_EPOCH
    ensures DayNumber(Date(1, 1, 1)) * DAY == ZERO_TIME
    ensures DayNumber(Date(10000, 1, 1)) * DAY == END_OF_TEXT
  {
  }

  function Digits2(n: nat): string
    requires n < 100
  {
    ['0' + (n / 10) as char, '0' + (n % 10) as char]
  }

  lemma Pad2(n: nat)
    requires n < 100
    ensures Pad(n, 2) == Digits2(n)
  {
    assert Pad(n / 10, 1) == Pad(n / 10 / 10, 0) + [Digit(n / 10 % 10)];
  }

  lemma Pad4(n: nat)
    requires n < 10000
    ensures Pad(n, 4) == Digits2(n / 100) + Digits2(n % 100)
  {
    Pad2(n / 100);
    assert n / 10 / 10 == n / 100;
    assert Pad(n / 10, 3) == Pad(n / 100, 2) + [Digit(n / 10 % 10)];
    assert n % 100 / 10 == n / 10 % 10 && n % 100 % 10 == n % 10;
  }

  lemma TripleLayout(head: string, sep: string, second: nat, third: nat)
    requires |sep| == 1 && second < 100 && third < 100
    ensures Triple(head, sep, second, third) == head + sep + Digits2(second) + sep + Digits2(third)
  {
    Pad2(second);
    Pad2(third);
  }

  lemma DateLayout(date: Date)
    requires ValidDate(date) && date.year < 10000
    ensures DateText(date)
         == Digits2(date.year / 100) + Digits2(date.year % 100) + "-" + Digits2(date.month) + "-" + Digits2(date.day)
  {
    Pad4(date.year);
    TripleLayout(YearText(date.year), "-", date.month, date.day);
  }

  lemma ClockSplit(hour: nat, minute: nat, second: nat)
    requires minute < 60 && second < 60
    ensures var clock := hour * 3600 + minute * 60 + second;
      clock / 3600 == hour && clock / 60 % 60 == minute && clock % 60 == second
  {
    var clock := hour * 3600 + minute * 60 + second;
    assert clock / 60 == hour * 60 + minute;
  }

  lemma ClockLayout(clock: nat, hour: nat, minute: nat, second: nat)
    requires clock < DAY && clock / 3600 == hour && clock / 60 % 60 == minute && clock % 60 == second
    requires hour < 24 && minute < 60 && second < 60
    ensures ClockText(clock) == Digits2(hour) + ":" + Digits2(minute) + ":" + Digits2(second)
  {
    Pad2(hour);
    TripleLayout(Pad(hour, 2), ":", minute, second);
  }

  lemma SameYear(a: Date, b: Date)
    requires ValidDate(a) && ValidDate(b) && DayNumber(a) == DayNumber(b)
    ensures a.year == b.year
  {
    DayNumberInYear(a);
    DayNumberInYear(b);
    YearStartMonotone(if a.year < b.year then a.year + 1 else b.year, if a.year < b.year then b.year else a.year);
    YearStartMonotone(if b.year < a.year then b.year + 1 else a.year, if b.year < a.year then a.year else b.year);
  }

  lemma SameMonth(a: Date, b: Date)
    requires ValidDate(a) && ValidDate(b) && a.year == b.year && DayNumber(a) == DayNumber(b)
    ensures a.month == b.month
  {
    DayNumberInYear(a);
    DayNumberInYear(b);
    if a.month < b.month {
      MonthStartMonotone(a.year, a.month + 1, b.month);
    } else if b.month < a.month {
      MonthStartMonotone(a.year, b.month + 1, a.month);
    }
  }

  lemma SameDate(date: Date)
    requires ValidDate(date)
    ensures DateOf(DayNumber(date)) == date
  {
    DateOfCorrect(DayNumber(date));
    SameYear(date, DateOf(DayNumber(date)));
    SameMonth(date, DateOf(DayNumber(date)));
  }

  lemma FormatParted(t: nat, day: nat, clock: nat)
    requires clock < DAY && t == day * DAY + clock
    ensures Format(t) == DateText(DateOf(day)) + ("T" + (ClockText(clock) + "Z"))
  {
    assert t / DAY == day && t % DAY == clock;
  }

  /** A stored timestamp reads year, month and day, hour, minute and second, two digits each and four for the year. */
  lemma FormatLayout(t: nat, date: Date, hour: nat, minute: nat, second: nat)
    requires ValidDate(date) && date.year < 10000 && hour < 24 && minute < 60 && second < 60
    requires t == DayNumber(date) * 86400 + (hour * 3600 + minute * 60 + second)
    ensures Format(t)
         == (Digits2(date.year / 100) + Digits2(date.year % 100) + "-" + Digits2(date.month) + "-" + Digits2(date.day))
            + ("T" + ((Digits2(hour) + ":" + Digits2(minute) + ":" + Digits2(second)) + "Z"))
  {
    FormatParted(t, DayNumber(date), hour * 3600 + minute * 60 + second);
    SameDate(date);
    DateLayout(date);
    ClockSplit(hour, minute, second);
    ClockLayout(hour * 3600 + minute * 60 + second, hour, minute, second);
  }
}
