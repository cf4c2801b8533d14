/**
 * Dates and times as DateTimeHelper builds them. Every value here is a wall-clock reading in
 * the America/Sao_Paulo zone (the helper passes that zone to every constructor); the zone's
 * offset and the clock itself are outside the model, so "now" is always a parameter.
 * The calendar is the proleptic Gregorian one PHP uses.
 */
module Calendar {
  import opened Text
  import opened Wrappers

  datatype Date = Date(year: nat, month: nat, day: nat)
  datatype DateTime = DateTime(date: Date, hour: nat, minute: nat, second: nat)

  const SecondsPerDay := 86400

  predicate IsLeap(y: nat) {
    y % 4 == 0 && (y % 100 != 0 || y % 400 == 0)
  }

  function YearLength(y: nat): nat {
    if IsLeap(y) then 366 else 365
  }

  function DaysInMonth(y: nat, m: nat): nat
    requires 1 <= m <= 12
  {
    if m == 2 then (if IsLeap(y) then 29 else 28)
    else if m == 4 || m == 6 || m == 9 || m == 11 then 30
    else 31
  }

  predicate ValidDate(d: Date) {
    1 <= d.month <= 12 && 1 <= d.day <= DaysInMonth(d.year, d.month)
  }

  predicate ValidDateTime(t: DateTime) {
    ValidDate(t.date) && t.hour < 24 && t.minute < 60 && t.second < 60
  }

  /** Days in the years before `y`. */
  function DaysBeforeYear(y: nat): nat {
    if y == 0 then 0 else DaysBeforeYear(y - 1) + YearLength(y - 1)
  }

  /** Days in the months of year `y` before month `m` (months outside 1..12 are clamped). */
  function DaysBeforeMonth(y: nat, m: nat): nat {
    var leap := if m > 2 && IsLeap(y) then 1 else 0;
    if m <= 1 then 0
    else if m == 2 then 31
    else if m == 3 then 59 + leap
    else if m == 4 then 90 + leap
    else if m == 5 then 120 + leap
    else if m == 6 then 151 + leap
    else if m == 7 then 181 + leap
    else if m == 8 then 212 + leap
    else if m == 9 then 243 + leap
    else if m == 10 then 273 + leap
    else if m == 11 then 304 + leap
    else 334 + leap
  }

  /** The day's ordinal: 0 for 0000-01-01, one more for each following day. */
  function DayNumber(d: Date): int {
    DaysBeforeYear(d.year) + DaysBeforeMonth(d.year, d.month) + d.day - 1
  }

  /** A moment as a count of seconds, so that timestamps compare as numbers. */
  function Instant(t: DateTime): int {
    DayNumber(t.date) * SecondsPerDay + t.hour * 3600 + t.minute * 60 + t.second
  }

  lemma MonthStep(y: nat, m: nat)
    requires 1 <= m <= 12
    ensures m < 12 ==> DaysBeforeMonth(y, m + 1) == DaysBeforeMonth(y, m) + DaysInMonth(y, m)
    ensures m == 12 ==> DaysBeforeMonth(y, m) + DaysInMonth(y, m) == YearLength(y)
  {
  }

  lemma {:induction false} MonthsMonotone(y: nat, m1: nat, m2: nat)
    requires 1 <= m1 < m2 <= 12
    ensures DaysBeforeMonth(y, m1) + DaysInMonth(y, m1) <= DaysBeforeMonth(y, m2)
    decreases m2 - m1
  {
    MonthStep(y, m1);
    if m1 + 1 < m2 {
      MonthsMonotone(y, m1 + 1, m2);
    }
  }

  lemma {:induction false} YearsMonotone(y1: nat, y2: nat)
    requires y1 < y2
    ensures DaysBeforeYear(y1) + YearLength(y1) <= DaysBeforeYear(y2)
  {
    if y1 + 1 < y2 {
      YearsMonotone(y1, y2 - 1);
    }
  }

  /** The calendar day after `d`. */
  function NextDay(d: Date): (r: Date)
    requires ValidDate(d)
    ensures ValidDate(r) && DayNumber(r) == DayNumber(d) + 1
  {
    MonthStep(d.year, d.month);
    if d.day < DaysInMonth(d.year, d.month) then Date(d.year, d.month, d.day + 1)
    else if d.month < 12 then Date(d.year, d.month + 1, 1)
    else Date(d.year + 1, 1, 1)
  }

  /** `n` calendar days after `d`, as `modify('+n days')` moves the date part. */
  function AddDays(d: Date, n: nat): (r: Date)
    requires ValidDate(d)
    ensures ValidDate(r) && DayNumber(r) == DayNumber(d) + n
    decreases n
  {
    if n == 0 then d else AddDays(NextDay(d), n - 1)
  }

  /** Calendar order: year, then month, then day. */
  predicate DateBefore(a: Date, b: Date) {
    a.year < b.year || (a.year == b.year && (a.month < b.month || (a.month == b.month && a.day < b.day)))
  }

  /** The ordinal numbers days in calendar order, one to one. */
  lemma DayNumberOrder(a: Date, b: Date)
    requires ValidDate(a) && ValidDate(b)
    ensures DateBefore(a, b) <==> DayNumber(a) < DayNumber(b)
    ensures a == b <==> DayNumber(a) == DayNumber(b)
  {
    if DateBefore(a, b) { DayNumberBefore(a, b); }
    if DateBefore(b, a) { DayNumberBefore(b, a); }
  }

  lemma DayNumberBefore(a: Date, b: Date)
    requires ValidDate(a) && ValidDate(b)
    requires DateBefore(a, b)
    ensures DayNumber(a) < DayNumber(b)
  {
    MonthStep(a.year, 12);
    if a.year < b.year {
      if a.month < 12 { MonthsMonotone(a.year, a.month, 12); }
      YearsMonotone(a.year, b.year);
    } else if a.month < b.month {
      MonthsMonotone(a.year, a.month, b.month);
    }
  }

  /** A day of year `y` comes before the first day of the following year. */
  lemma WithinYear(d: Date)
    requires ValidDate(d)
    ensures DayNumber(d) < DaysBeforeYear(d.year + 1)
  {
    MonthStep(d.year, 12);
    if d.month < 12 { MonthsMonotone(d.year, d.month, 12); }
  }

  /** A day less than a year after `a` falls in `a`'s year or the next one. */
  lemma YearAfter(a: Date, b: Date)
    requires ValidDate(a) && ValidDate(b) && DayNumber(b) <= DayNumber(a) + 365
    ensures b.year <= a.year + 1
  {
    if b.year > a.year + 1 {
      WithinYear(a);
      YearsMonotone(a.year + 1, b.year);
    }
  }

  /** Widths of the zero-padded fields: `Y` for years below 10000, and `m`, `d`, `H`, `i`, `s`. */
  const YearWidth: nat := 4
  const PairWidth: nat := 2

  /** The year as PHP's `Y` renders it: at least four digits, zero-padded. */
  function YearText(y: nat): (r: string)
  {
    FixedDigits(y, if y < 10000 then YearWidth else NumDigits(y))
  }

  function NumDigits(n: nat): (k: nat)
    ensures k >= 1 && n < Pow10(k)
  {
    if n < 10 then 1 else 1 + NumDigits(n / 10)
  }

  /** `format('Y-m-d')`. */
  function FormatYmd(d: Date): string {
    YearText(d.year) + "-" + FixedDigits(d.month, PairWidth) + "-" + FixedDigits(d.day, PairWidth)
  }

  /** `format('Y-m-d H:i:s')`. */
  function FormatDateTime(t: DateTime): string {
    FormatYmd(t.date) + " " + FormatTime(t.hour, t.minute, t.second)
  }

  /** `H:i:s`: hour, minute and second, two digits each. */
  function FormatTime(h: nat, mi: nat, se: nat): string {
    FixedDigits(h, PairWidth) + ":" + FixedDigits(mi, PairWidth) + ":" + FixedDigits(se, PairWidth)
  }

  predicate DigitsAt(s: string, lo: nat, hi: nat)
    requires lo <= hi <= |s|
  {
    forall k :: lo <= k < hi ==> IsDigit(s[k])
  }

  /** The layout `Y-m-d` as `format` writes it for a four-digit year: `dddd-dd-dd`. */
  predicate YmdShape(s: string) {
    |s| == 10 && DigitsAt(s, 0, 4) && s[4] == '-' && DigitsAt(s, 5, 7) && s[7] == '-' && DigitsAt(s, 8, 10)
  }

  /** The date whose fields a `dddd-dd-dd` text spells, valid or not. */
  function YmdFields(s: string): Date
    requires YmdShape(s)
  {
    Date(DigitsValue(s[0..4]), DigitsValue(s[5..7]), DigitsValue(s[8..10]))
  }

  /** How many digits, `max` at most, open the text: what timelib's number reader takes for one field. */
  function LeadingDigits(s: string, max: nat): (n: nat)
    ensures n <= max && n <= |s| && DigitsAt(s, 0, n)
    ensures n < max && n < |s| ==> !IsDigit(s[n])
  {
    if max == 0 || s == [] || !IsDigit(s[0]) then 0
    else
      var n := 1 + LeadingDigits(s[1..], max - 1);
      assert forall k :: 1 <= k < n ==> s[k] == s[1..][k - 1];
      n
  }

  /**
   * The three numbers of a text as `createFromFormat('Y-m-d', ...)` reads them: up to four
   * digits for the year, a dash, up to two digits for the month, a dash, up to two digits for
   * the day, and nothing after. Each field takes as many digits as it may, so a field without
   * a digit, a fifth year digit, another separator or text left over reads nothing. The
   * numbers are not checked against the calendar.
   */
  function YmdNumbers(s: string): (r: Option<Date>)
  {
    var a := LeadingDigits(s, 4);
    if a == 0 || a == |s| || s[a] != '-' then None
    else
      var t := s[a + 1..];
      var b := LeadingDigits(t, 2);
      if b == 0 || b == |t| || t[b] != '-' then None
      else
        var u := t[b + 1..];
        var c := LeadingDigits(u, 2);
        if c == 0 || c != |u| then None
        else Some(Date(DigitsValue(s[..a]), DigitsValue(t[..b]), DigitsValue(u)))
  }

  /** Day `d` of month `m` of year `y`, counted on into the following months and years when the month is shorter. */
  function DayOfMonth(y: nat, m: nat, d: nat): (r: Date)
    requires 1 <= m <= 12 && d >= 1
    ensures ValidDate(r)
    decreases d
  {
    if d <= DaysInMonth(y, m) then Date(y, m, d)
    else if m < 12 then DayOfMonth(y, m + 1, d - DaysInMonth(y, m))
    else DayOfMonth(y + 1, 1, d - DaysInMonth(y, m))
  }

  /** Day `d` of month `m`, counted on, lies `d - 1` days after the first of that month. */
  lemma {:induction false} DayOfMonthCounts(y: nat, m: nat, d: nat)
    requires 1 <= m <= 12 && d >= 1
    ensures DayNumber(DayOfMonth(y, m, d)) == DayNumber(Date(y, m, 1)) + d - 1
    decreases d
  {
    MonthStep(y, m);
    if d <= DaysInMonth(y, m) {
    } else if m < 12 {
      DayOfMonthCounts(y, m + 1, d - DaysInMonth(y, m));
    } else {
      DayOfMonthCounts(y + 1, 1, d - DaysInMonth(y, m));
    }
  }

  /** The first day of the month `k` months after January of year 0. */
  function MonthStart(k: nat): (d: Date)
    ensures ValidDate(d) && 12 * d.year + d.month - 1 == k
  {
    Date(k / 12, k % 12 + 1, 1)
  }

  /** The calendar day before `d`; nothing before 0000-01-01. */
  function DayBefore(d: Date): (r: Option<Date>)
    requires ValidDate(d)
    ensures r.None? <==> d == Date(0, 1, 1)
    ensures r.Some? ==> ValidDate(r.value)
  {
    if d.day > 1 then Some(Date(d.year, d.month, d.day - 1))
    else if d.month > 1 then
      MonthEnd(d.year, d.month - 1);
      Some(Date(d.year, d.month - 1, DaysInMonth(d.year, d.month - 1)))
    else if d.year > 0 then Some(Date(d.year - 1, 12, 31))
    else None
  }

  /** The day before a date is one day number earlier. */
  lemma DayBeforeCounts(d: Date)
    requires ValidDate(d) && d != Date(0, 1, 1)
    ensures DayNumber(DayBefore(d).value) == DayNumber(d) - 1
  {
    if d.day > 1 {
    } else if d.month > 1 {
      MonthEnd(d.year, d.month - 1);
    } else {
      MonthEnd(d.year - 1, 12);
    }
  }

  /** The last day of month `m` is the day before the first of the next month. */
  lemma MonthEnd(y: nat, m: nat)
    requires 1 <= m <= 12
    ensures ValidDate(Date(y, m, DaysInMonth(y, m)))
    ensures m < 12 ==> DayNumber(Date(y, m, DaysInMonth(y, m))) + 1 == DayNumber(Date(y, m + 1, 1))
    ensures m == 12 ==> DayNumber(Date(y, m, DaysInMonth(y, m))) + 1 == DayNumber(Date(y + 1, 1, 1))
  {
    MonthStep(y, m);
  }

  /**
   * The date PHP makes of the numbers y-m-d, in or out of range: the month counts on from
   * January of year y (13 is January of y + 1, 0 is December of y - 1), then the day counts
   * on from the first of that month (0 is the last day of the month before). Nothing when
   * that lands before 0000-01-01, which `Date` cannot hold.
   */
  function Normalize(f: Date): (r: Option<Date>)
    ensures var k := 12 * f.year + f.month - 1;
      r.Some? <==> k >= 0 && (f.day >= 1 || k >= 1)
    ensures r.Some? ==> ValidDate(r.value)
  {
    var k := 12 * f.year + f.month - 1;
    if k < 0 then None
    else
      var first := MonthStart(k);
      if f.day >= 1 then Some(DayOfMonth(first.year, first.month, f.day))
      else
        assert first == Date(0, 1, 1) <==> k == 0;
        DayBefore(first)
  }

  /**
   * Where the carried-over date lies: `day - 1` days after the first of the month the fields
   * count to (one day before it for day 0).
   */
  lemma NormalizeCounts(f: Date)
    requires Normalize(f).Some?
    ensures var k := 12 * f.year + f.month - 1;
      k >= 0 && DayNumber(Normalize(f).value) == DayNumber(MonthStart(k)) + f.day - 1
  {
    var k := 12 * f.year + f.month - 1;
    var first := MonthStart(k);
    if f.day >= 1 {
      NormalizeForward(f);
      DayOfMonthCounts(first.year, first.month, f.day);
    } else {
      NormalizeBackward(f);
      DayBeforeCounts(first);
    }
  }

  /** Counting months from January of year 0: the year and the month of the year. */
  lemma MonthCount(y: nat, r: nat)
    requires r < 12
    ensures (12 * y + r) / 12 == y && (12 * y + r) % 12 == r
  {
  }

  /** The numbers of a real date are that date. */
  lemma NormalizeValid(f: Date)
    requires ValidDate(f)
    ensures Normalize(f) == Some(f)
  {
    MonthOf(f.year, f.month);
    NormalizeForward(f);
    assert DayOfMonth(f.year, f.month, f.day) == f;
  }

  /** A day of at least 1 counts on from the first of the month the month number names. */
  lemma NormalizeForward(f: Date)
    requires 12 * f.year + f.month - 1 >= 0 && f.day >= 1
    ensures var first := MonthStart(12 * f.year + f.month - 1);
      Normalize(f) == Some(DayOfMonth(first.year, first.month, f.day))
  {
  }

  /** Day 0 is the day before the first of the month the month number names. */
  lemma NormalizeBackward(f: Date)
    requires 12 * f.year + f.month - 1 >= 1 && f.day == 0
    ensures Normalize(f) == DayBefore(MonthStart(12 * f.year + f.month - 1))
  {
  }

  /** Month `m` of year `y` is the month counted `12 * y + m - 1` from January of year 0. */
  lemma MonthOf(y: nat, m: nat)
    requires 1 <= m <= 12
    ensures MonthStart(12 * y + m - 1) == Date(y, m, 1)
  {
    MonthCount(y, m - 1);
  }

  /**
   * `createFromFormat('Y-m-d', s)`: the numbers the text holds, with a month or day out of
   * range carried over as `Normalize` does; nothing (PHP's false) when the text is not of
   * that form.
   */
  function ParseYmd(s: string): (r: Option<Date>)
    ensures r.Some? ==> ValidDate(r.value) && YmdNumbers(s).Some? && r == Normalize(YmdNumbers(s).value)
    ensures YmdNumbers(s).None? ==> r.None?
  {
    match YmdNumbers(s)
    case None => None
    case Some(f) => Normalize(f)
  }

  /** In the layout `format` writes, the reader takes the four, two and two digits as the fields. */
  lemma ShapeNumbers(s: string)
    requires YmdShape(s)
    ensures YmdNumbers(s) == Some(YmdFields(s))
  {
    var t := s[5..];
    assert s[4 + 1..] == t && t[3..] == s[8..10] && t[..2] == s[5..7] && s[..4] == s[0..4];
    assert LeadingDigits(s, 4) == 4;
    assert LeadingDigits(t, 2) == 2 by { assert DigitsAt(t, 0, 2); }
    assert LeadingDigits(s[8..10], 2) == 2 by { assert DigitsAt(s[8..10], 0, 2); }
  }

  /** A text of the `dddd-dd-dd` layout reads as its fields, carried over. */
  lemma ShapeReads(s: string)
    requires YmdShape(s)
    ensures ParseYmd(s) == Normalize(YmdFields(s))
  {
    ShapeNumbers(s);
  }

  /**
   * A text of the `dddd-dd-dd` layout that names a real date reads as that date, and that
   * date renders as the text again.
   */
  lemma ParseYmdStrict(s: string)
    requires YmdShape(s) && ValidDate(YmdFields(s))
    ensures ParseYmd(s) == Some(YmdFields(s))
    ensures FormatYmd(YmdFields(s)) == s
  {
    ShapeReads(s);
    NormalizeValid(YmdFields(s));
    FieldsRender(s);
  }

  /** The fields of a `dddd-dd-dd` text, rendered, are the text again. */
  lemma FieldsRender(s: string)
    requires YmdShape(s)
    ensures FormatYmd(YmdFields(s)) == s
  {
    var d := YmdFields(s);
    DigitsRoundTripBack(s[0..4]);
    DigitsRoundTripBack(s[5..7]);
    DigitsRoundTripBack(s[8..10]);
    assert YearText(d.year) == s[0..4];
    YmdSplit(s);
  }

  /** The value of a text of one, two or four digits, digit by digit. */
  lemma DigitsValueSmall(s: string)
    requires 1 <= |s| <= 4 && DigitsAt(s, 0, |s|)
    ensures |s| == 1 ==> DigitsValue(s) == DigitValue(s[0])
    ensures |s| == 2 ==> DigitsValue(s) == 10 * DigitValue(s[0]) + DigitValue(s[1])
    ensures |s| == 4 ==> DigitsValue(s) == 1000 * DigitValue(s[0]) + 100 * DigitValue(s[1]) + 10 * DigitValue(s[2]) + DigitValue(s[3])
  {
    if |s| == 1 {
      assert s[..0] == [];
    } else if |s| == 2 {
      assert s[..1][..0] == [] && s[..1][0] == s[0];
    } else if |s| == 4 {
      var s3, s2, s1 := s[..3], s[..2], s[..1];
      assert s3[..2] == s2 && s2[..1] == s1 && s1[..0] == [];
      assert s3[2] == s[2] && s2[1] == s[1] && s1[0] == s[0];
    }
  }

  /** The numbers of a text `yyyy-m-d`, `yyyy-mm-d`, `yyyy-m-dd` or `yyyy-mm-dd`. */
  lemma NumbersOf(s: string, b: nat, c: nat)
    requires 1 <= b <= 2 && 1 <= c <= 2 && |s| == 4 + 1 + b + 1 + c
    requires DigitsAt(s, 0, 4) && s[4] == '-' && DigitsAt(s, 5, 5 + b) && s[5 + b] == '-' && DigitsAt(s, 6 + b, |s|)
    ensures YmdNumbers(s) == Some(Date(DigitsValue(s[..4]), DigitsValue(s[5..5 + b]), DigitsValue(s[6 + b..])))
  {
    var t := s[5..];
    var u := t[b + 1..];
    assert LeadingDigits(s, 4) == 4;
    assert DigitsAt(t, 0, b) && t[b] == '-';
    assert LeadingDigits(t, 2) == b;
    assert t[..b] == s[5..5 + b] && u == s[6 + b..];
    assert DigitsAt(u, 0, c);
    assert LeadingDigits(u, 2) == c;
  }

  /** One-digit month and day are read: "2025-1-5" is 2025-01-05. */
  lemma ReadsShortFields(s: string)
    requires |s| == 8 && DigitsAt(s, 0, 4) && s[4] == '-' && IsDigit(s[5]) && s[6] == '-' && IsDigit(s[7])
    requires DigitValue(s[5]) >= 1 && DigitValue(s[7]) >= 1
    ensures ParseYmd(s) == Some(Date(DigitsValue(s[..4]), DigitValue(s[5]), DigitValue(s[7])))
  {
    NumbersOf(s, 1, 1);
    DigitsValueSmall(s[5..6]);
    DigitsValueSmall(s[7..]);
    assert s[5..6][0] == s[5] && s[7..][0] == s[7];
    NormalizeValid(Date(DigitsValue(s[..4]), DigitValue(s[5]), DigitValue(s[7])));
  }

  /** Day 30 of February runs into March: the 2nd in a common year, the 1st in a leap year. */
  lemma FebruaryOverflow(y: nat)
    ensures Normalize(Date(y, 2, 30)) == Some(if IsLeap(y) then Date(y, 3, 1) else Date(y, 3, 2))
  {
    MonthOf(y, 2);
    NormalizeForward(Date(y, 2, 30));
    FebruaryDay30(y);
  }

  lemma FebruaryDay30(y: nat)
    ensures DayOfMonth(y, 2, 30) == if IsLeap(y) then Date(y, 3, 1) else Date(y, 3, 2)
  {
    var n := DaysInMonth(y, 2);
    assert DayOfMonth(y, 2, 30) == DayOfMonth(y, 3, 30 - n);
  }

  /** Month 13 is January of the next year. */
  lemma MonthOverflow(y: nat, d: nat)
    requires 1 <= d <= 31
    ensures Normalize(Date(y, 13, d)) == Some(Date(y + 1, 1, d))
  {
    SameMonthCount(Date(y, 13, d), Date(y + 1, 1, d));
    NormalizeValid(Date(y + 1, 1, d));
  }

  /** Only the count of months and the day matter: month 13 of one year is month 1 of the next. */
  lemma SameMonthCount(f: Date, g: Date)
    requires 12 * f.year + f.month == 12 * g.year + g.month && f.day == g.day
    ensures Normalize(f) == Normalize(g)
  {
  }

  /** Day 0 is the last day of the month before. */
  lemma DayZero(y: nat, m: nat)
    requires 2 <= m <= 12
    ensures Normalize(Date(y, m, 0)) == Some(Date(y, m - 1, DaysInMonth(y, m - 1)))
  {
    MonthOf(y, m);
    NormalizeBackward(Date(y, m, 0));
    MonthEnd(y, m - 1);
  }

  /**
   * A day past the month's end runs into the next month: any `yyyy-02-30` reads as March 2nd
   * of a common year ("2025-02-30" is 2025-03-02) and March 1st of a leap year.
   */
  lemma ReadsDayOverflow(s: string)
    requires YmdShape(s) && YmdFields(s).month == 2 && YmdFields(s).day == 30
    ensures var y := YmdFields(s).year;
      ParseYmd(s) == Some(if IsLeap(y) then Date(y, 3, 1) else Date(y, 3, 2))
  {
    var f := YmdFields(s);
    ShapeReads(s);
    assert f == Date(f.year, 2, 30);
    FebruaryOverflow(f.year);
  }

  /** A thirteenth month is January of the next year: "2025-13-01" is 2026-01-01. */
  lemma ReadsMonthOverflow(s: string)
    requires YmdShape(s) && YmdFields(s).month == 13 && 1 <= YmdFields(s).day <= 31
    ensures ParseYmd(s) == Some(Date(YmdFields(s).year + 1, 1, YmdFields(s).day))
  {
    var f := YmdFields(s);
    ShapeReads(s);
    assert f == Date(f.year, 13, f.day);
    MonthOverflow(f.year, f.day);
  }

  /** Day 0 is the last day of the month before: "2025-03-00" is 2025-02-28. */
  lemma ReadsDayZero(s: string)
    requires YmdShape(s) && 2 <= YmdFields(s).month <= 12 && YmdFields(s).day == 0
    ensures var f := YmdFields(s);
      ParseYmd(s) == Some(Date(f.year, f.month - 1, DaysInMonth(f.year, f.month - 1)))
  {
    var f := YmdFields(s);
    ShapeReads(s);
    assert f == Date(f.year, f.month, 0);
    DayZero(f.year, f.month);
  }

  /** Text after the day reads nothing: a `dddd-dd-dd` date followed by any text gives false. */
  lemma RejectsTrailingText(d: string, w: string)
    requires YmdShape(d) && w != []
    ensures ParseYmd(d + w) == None
  {
    var s := d + w;
    assert DigitsAt(s, 0, 4) && s[4] == '-' by { assert forall k :: 0 <= k < 10 ==> s[k] == d[k]; }
    assert LeadingDigits(s, 4) == 4;
    var t := s[5..];
    assert DigitsAt(t, 0, 2) && t[2] == '-' by { assert forall k :: 0 <= k < 5 ==> t[k] == d[5 + k]; }
    assert LeadingDigits(t, 2) == 2;
    var u := t[3..];
    assert |u| == 2 + |w| && DigitsAt(u, 0, 2) by { assert forall k :: 0 <= k < 2 ==> u[k] == d[8 + k]; }
    assert LeadingDigits(u, 2) == 2;
  }

  lemma YmdSlices(y: string, m: string, d: string)
    requires |y| == 4 && |m| == 2 && |d| == 2
    ensures var s := y + "-" + m + "-" + d;
      |s| == 10 && s[0..4] == y && s[4] == '-' && s[5..7] == m && s[7] == '-' && s[8..10] == d
  {
  }

  /** The layout of a time: `dd:dd:dd`. */
  predicate TimeShape(t: string) {
    |t| == 8 && DigitsAt(t, 0, 2) && t[2] == ':' && DigitsAt(t, 3, 5) && t[5] == ':' && DigitsAt(t, 6, 8)
  }

  /** The seconds since midnight a time of day spells, valid or not. */
  function TimeSeconds(t: string): nat
    requires TimeShape(t)
  {
    DigitsValue(t[0..2]) * 3600 + DigitsValue(t[3..5]) * 60 + DigitsValue(t[6..8])
  }

  /** The time fields `new DateTime` takes: an hour up to 24, a minute up to 59, a second up to 60. */
  predicate TimeInRange(t: string)
    requires TimeShape(t)
  {
    DigitsValue(t[0..2]) <= 24 && DigitsValue(t[3..5]) <= 59 && DigitsValue(t[6..8]) <= 60
  }

  /** The date part `new DateTime` takes here: a four-digit year, a month up to 12 and a day up to 31. */
  function DateNumbers(s: string): (r: Option<Date>)
    ensures r.Some? ==> r.value.month <= 12 && r.value.day <= 31
  {
    match YmdNumbers(s)
    case None => None
    case Some(f) => if LeadingDigits(s, 4) == 4 && f.month <= 12 && f.day <= 31 then Some(f) else None
  }

  /** The moment `secs` seconds (less than two days) after the start of the day `d`. */
  function At(d: Date, secs: nat): (r: DateTime)
    requires ValidDate(d) && secs < 2 * SecondsPerDay
    ensures ValidDateTime(r) && Instant(r) == DayNumber(d) * SecondsPerDay + secs
  {
    if secs < SecondsPerDay then
      ClockFields(secs);
      DateTime(d, secs / 3600, secs % 3600 / 60, secs % 60)
    else
      var rest := secs - SecondsPerDay;
      ClockFields(rest);
      DateTime(NextDay(d), rest / 3600, rest % 3600 / 60, rest % 60)
  }

  /** The hour, minute and second of a count of seconds within one day. */
  lemma ClockFields(rest: nat)
    requires rest < SecondsPerDay
    ensures rest / 3600 < 24 && rest % 3600 / 60 < 60 && rest % 60 < 60
    ensures rest / 3600 * 3600 + rest % 3600 / 60 * 60 + rest % 60 == rest
  {
    var h, r := rest / 3600, rest % 3600;
    assert rest == h * 3600 + r;
    assert r == r / 60 * 60 + r % 60;
    assert r % 60 == rest % 60;
  }

  /**
   * `new DateTime(s)` for the two layouts the model reads, a date (at midnight) and a date
   * followed by a space and `H:i:s`, with the ranges the parser takes (`DateNumbers`,
   * `TimeInRange`). A day past the month's end, day 0, month 0, hour 24 and second 60 carry
   * over; any other text raises (nothing here).
   */
  function ParseDateTime(s: string): (r: Option<DateTime>)
    ensures r.Some? ==> ValidDateTime(r.value)
  {
    var split := |s| >= 9 && s[|s| - 9] == ' ';
    var datePart := if split then s[..|s| - 9] else s;
    var timePart := if split then s[|s| - 8..] else "00:00:00";
    if !TimeShape(timePart) || !TimeInRange(timePart) then None
    else match DateNumbers(datePart)
      case None => None
      case Some(f) =>
        match Normalize(f)
        case None => None
        case Some(d) => Some(At(d, TimeSeconds(timePart)))
  }

  /**
   * What `new DateTime` makes of an accepted text: the moment that lies the time's seconds
   * after the start of the normalised date.
   */
  lemma ParseDateTimeNormalises(date: string, time: string)
    requires TimeShape(time) && TimeInRange(time) && DateNumbers(date).Some? && Normalize(DateNumbers(date).value).Some?
    ensures ParseDateTime(date + " " + time).Some?
    ensures Instant(ParseDateTime(date + " " + time).value)
         == DayNumber(Normalize(DateNumbers(date).value).value) * SecondsPerDay + TimeSeconds(time)
  {
    var s := date + " " + time;
    assert s[..|s| - 9] == date && s[|s| - 8..] == time && s[|s| - 9] == ' ';
  }

  /** Where the date and the time of a `date time` text sit. */
  lemma SplitAt(date: string, time: string)
    requires |time| == 8
    ensures var s := date + " " + time;
      |s| >= 9 && s[|s| - 9] == ' ' && s[..|s| - 9] == date && s[|s| - 8..] == time
  {
  }

  /** A `date time` text `new DateTime` accepts: the time's seconds after the start of the normalised date. */
  lemma ReadsDateAndTime(date: string, time: string, f: Date, d: Date)
    requires TimeShape(time) && TimeInRange(time) && DateNumbers(date) == Some(f) && Normalize(f) == Some(d)
    ensures ParseDateTime(date + " " + time) == Some(At(d, TimeSeconds(time)))
  {
    SplitAt(date, time);
  }

  /** The midnight a date alone stands for. */
  lemma Midnight(t: string)
    requires t == "00:00:00"
    ensures TimeShape(t) && TimeInRange(t) && TimeSeconds(t) == 0
  {
    var z := t[0..2];
    assert z == t[3..5] == t[6..8];
    assert |z| == 2 && z[0] == '0' && z[1] == '0';
    assert z[..1][..0] == [] && z[..1][0] == '0';
  }

  /** A date alone is read at midnight, after the same carrying over: "2025-02-30" is 2025-03-02 00:00:00. */
  lemma ReadsDateAlone(s: string)
    requires YmdShape(s) && YmdFields(s).month <= 12 && YmdFields(s).day <= 31
    requires Normalize(YmdFields(s)).Some?
    ensures ParseDateTime(s) == Some(DateTime(Normalize(YmdFields(s)).value, 0, 0, 0))
  {
    ShapeNumbers(s);
    assert DateNumbers(s) == Some(YmdFields(s));
    assert s[|s| - 9] == s[1];
    Midnight("00:00:00");
    AtFields(Normalize(YmdFields(s)).value, 0, 0, 0);
  }

  /** Hour 24 of a day is midnight of the next day: "2025-10-20 24:00:00" is 2025-10-21 00:00:00. */
  lemma ReadsHour24(date: string, time: string)
    requires YmdShape(date) && ValidDate(YmdFields(date))
    requires TimeShape(time) && DigitsValue(time[0..2]) == 24 && DigitsValue(time[3..5]) == 0 && DigitsValue(time[6..8]) == 0
    ensures ParseDateTime(date + " " + time) == Some(DateTime(NextDay(YmdFields(date)), 0, 0, 0))
  {
    var f := YmdFields(date);
    RealDateNumbers(date);
    ReadsDateAndTime(date, time, f, f);
    NextMidnight(f);
  }

  /** The date part of a real `dddd-dd-dd` date passes `new DateTime`'s ranges unchanged. */
  lemma RealDateNumbers(date: string)
    requires YmdShape(date) && ValidDate(YmdFields(date))
    ensures DateNumbers(date) == Some(YmdFields(date)) && Normalize(YmdFields(date)) == Some(YmdFields(date))
  {
    ShapeNumbers(date);
    NormalizeValid(YmdFields(date));
  }

  /** A whole day after the start of a day is the start of the next. */
  lemma NextMidnight(d: Date)
    requires ValidDate(d)
    ensures At(d, SecondsPerDay) == DateTime(NextDay(d), 0, 0, 0)
  {
  }

  /** A minute past 59 is refused: "2025-10-20 10:61:00" reads nothing. */
  lemma RejectsMinute61(date: string, time: string)
    requires TimeShape(time) && DigitsValue(time[3..5]) > 59
    ensures ParseDateTime(date + " " + time) == None
  {
    SplitAt(date, time);
  }

  /** `createScheduledAt`: the date `createFromFormat` reads, at exactly 06:00:00; nothing when it reads false. */
  function CreateScheduledAt(date: string): (r: Option<DateTime>)
    ensures r.Some? <==> ParseYmd(date).Some?
    ensures r.Some? ==> r.value == DateTime(ParseYmd(date).value, 6, 0, 0) && ValidDateTime(r.value)
  {
    match ParseYmd(date)
    case Some(d) => Some(DateTime(d, 6, 0, 0))
    case None => None
  }

  /** The rendering of a date is scheduled at 06:00 of that very date. */
  lemma ScheduledAtOfRendering(d: Date)
    requires ValidDate(d) && d.year < 10000
    ensures CreateScheduledAt(FormatYmd(d)) == Some(DateTime(d, 6, 0, 0))
  {
    YmdRoundTrip(d);
  }

  /** `createBrazilDateTime`: "now" when no text is given, otherwise the parsed text. */
  function CreateBrazilDateTime(time: Option<string>, now: DateTime): (r: Option<DateTime>)
    ensures time.None? ==> r == Some(now)
    ensures time.Some? ==> r == ParseDateTime(time.value)
  {
    match time
    case None => Some(now)
    case Some(s) => ParseDateTime(s)
  }

  /** `nowBrazil`: the clock reading rendered as `Y-m-d H:i:s`. */
  function NowBrazil(now: DateTime): (r: string)
    requires ValidDateTime(now) && now.date.year < 10000
    ensures |r| == 19 && ParseDateTime(r) == Some(now)
  {
    DateTimeRoundTrip(now);
    FormatDateTime(now)
  }

  lemma FixedTwo(x: nat)
    requires x < 100
    ensures DigitsValue(FixedDigits(x, PairWidth)) == x
  {
    DigitsRoundTrip(x, 2);
  }

  /** Rendering a date and reading it back gives the same date. */
  lemma YmdRoundTrip(d: Date)
    requires ValidDate(d) && d.year < 10000
    ensures |FormatYmd(d)| == 10 && YmdShape(FormatYmd(d)) && YmdFields(FormatYmd(d)) == d
    ensures ParseYmd(FormatYmd(d)) == Some(d)
  {
    var y, m, dd := FixedDigits(d.year, 4), FixedDigits(d.month, 2), FixedDigits(d.day, 2);
    var s := FormatYmd(d);
    assert s == y + "-" + m + "-" + dd;
    YmdSlices(y, m, dd);
    assert YmdShape(s);
    DigitsRoundTrip(d.year, 4);
    FixedTwo(d.month);
    FixedTwo(d.day);
    assert YmdFields(s) == d;
    ShapeNumbers(s);
    NormalizeValid(d);
  }

  /** A text of the `Y-m-d` layout is its three fields joined by dashes. */
  lemma YmdSplit(s: string)
    requires YmdShape(s)
    ensures s == s[0..4] + "-" + s[5..7] + "-" + s[8..10]
  {
    assert s == s[0..4] + [s[4]] + s[5..7] + [s[7]] + s[8..10];
  }

  /** Where the fields of a `H:i:s` rendering sit. */
  lemma TimeSlices(h: string, mi: string, se: string)
    requires |h| == 2 && |mi| == 2 && |se| == 2
    requires forall k :: 0 <= k < 2 ==> IsDigit(h[k]) && IsDigit(mi[k]) && IsDigit(se[k])
    ensures var t := h + ":" + mi + ":" + se;
      && TimeShape(t) && t[0..2] == h && t[3..5] == mi && t[6..8] == se
  {
  }

  lemma DateTimeRoundTrip(t: DateTime)
    requires ValidDateTime(t) && t.date.year < 10000
    ensures |FormatDateTime(t)| == 19 && ParseDateTime(FormatDateTime(t)) == Some(t)
  {
    ReadsRendering(t.date, t.hour, t.minute, t.second);
    assert |FormatYmd(t.date)| == 10 by { YmdRoundTrip(t.date); }
    assert |FormatTime(t.hour, t.minute, t.second)| == 8 by { TimeRoundTrip(t.hour, t.minute, t.second); }
  }

  /** The date and time fields read back from their rendering. */
  lemma ReadsRendering(d: Date, h: nat, mi: nat, se: nat)
    requires ValidDate(d) && d.year < 10000 && h < 24 && mi < 60 && se < 60
    ensures var s := FormatYmd(d) + " " + FormatTime(h, mi, se);
      ParseDateTime(s) == Some(DateTime(d, h, mi, se))
  {
    var ymd := FormatYmd(d);
    var time := FormatTime(h, mi, se);
    assert DateNumbers(ymd) == Some(d) by {
      YmdRoundTrip(d);
      ShapeNumbers(ymd);
    }
    assert TimeShape(time) && TimeInRange(time) && TimeSeconds(time) == h * 3600 + mi * 60 + se by {
      TimeRoundTrip(h, mi, se);
    }
    assert ParseDateTime(ymd + " " + time) == Some(At(d, TimeSeconds(time))) by {
      NormalizeValid(d);
      ReadsDateAndTime(ymd, time, d, d);
    }
    AtFields(d, h, mi, se);
  }

  /** Rendering a time of day `H:i:s` and reading its fields back gives the same seconds. */
  lemma TimeRoundTrip(h: nat, mi: nat, se: nat)
    requires h < 24 && mi < 60 && se < 60
    ensures var time := FormatTime(h, mi, se);
      TimeShape(time) && TimeInRange(time) && TimeSeconds(time) == h * 3600 + mi * 60 + se
  {
    var hh, mm, ss := FixedDigits(h, PairWidth), FixedDigits(mi, PairWidth), FixedDigits(se, PairWidth);
    TimeSlices(hh, mm, ss);
    FixedTwo(h);
    FixedTwo(mi);
    FixedTwo(se);
  }

  /** The moment a time of day's seconds after the start of a day has that time's fields. */
  lemma AtFields(d: Date, h: nat, mi: nat, se: nat)
    requires ValidDate(d) && h < 24 && mi < 60 && se < 60
    ensures h * 3600 + mi * 60 + se < 2 * SecondsPerDay
    ensures At(d, h * 3600 + mi * 60 + se) == DateTime(d, h, mi, se)
  {
    var secs := h * 3600 + mi * 60 + se;
    var low := mi * 60 + se;
    assert low < 3600;
    assert secs < SecondsPerDay;
    assert secs / 3600 == h && secs % 3600 == low;
    assert low / 60 == mi && secs % 60 == se;
  }

  /** Three fields joined by dashes compare field by field, when the widths agree. */
  lemma JoinedOrder(y1: string, m1: string, d1: string, y2: string, m2: string, d2: string)
    requires |y1| == |y2| && |m1| == |m2|
    ensures LexLess(y1 + "-" + m1 + "-" + d1, y2 + "-" + m2 + "-" + d2)
        <==> LexLess(y1, y2) || (y1 == y2 && (LexLess(m1, m2) || (m1 == m2 && LexLess(d1, d2))))
  {
    assert y1 + "-" + m1 + "-" + d1 == y1 + ("-" + (m1 + ("-" + d1)));
    assert y2 + "-" + m2 + "-" + d2 == y2 + ("-" + (m2 + ("-" + d2)));
    LexConcat(y1, "-" + (m1 + ("-" + d1)), y2, "-" + (m2 + ("-" + d2)));
    LexConcat("-", m1 + ("-" + d1), "-", m2 + ("-" + d2));
    LexConcat(m1, "-" + d1, m2, "-" + d2);
    LexConcat("-", d1, "-", d2);
    LexLessIrreflexive("-");
  }

  /**
   * Comparing `Y-m-d` renderings as strings is comparing the dates, for years of at most
   * four digits (the width `Y` keeps fixed).
   */
  lemma FormatOrder(a: Date, b: Date)
    requires ValidDate(a) && ValidDate(b) && a.year < 10000 && b.year < 10000
    ensures LexLess(FormatYmd(a), FormatYmd(b)) <==> DayNumber(a) < DayNumber(b)
  {
    DayNumberOrder(a, b);
    var ya, yb := FixedDigits(a.year, YearWidth), FixedDigits(b.year, YearWidth);
    var ma, mb := FixedDigits(a.month, PairWidth), FixedDigits(b.month, PairWidth);
    var da, db := FixedDigits(a.day, PairWidth), FixedDigits(b.day, PairWidth);
    FixedDigitsOrder(a.year, b.year, YearWidth);
    FixedDigitsOrder(a.month, b.month, PairWidth);
    FixedDigitsOrder(a.day, b.day, PairWidth);
    JoinedOrder(ya, ma, da, yb, mb, db);
  }

  /** Different dates render differently. */
  lemma FormatInjective(a: Date, b: Date)
    requires ValidDate(a) && ValidDate(b) && a.year < 10000 && b.year < 10000
    ensures FormatYmd(a) == FormatYmd(b) <==> a == b
  {
    YmdRoundTrip(a);
    YmdRoundTrip(b);
  }
}
