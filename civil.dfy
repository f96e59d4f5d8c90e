/** Calendar dates as the tracker sees them: a JavaScript `Date` reduced to a local calendar day,
    the proleptic Gregorian calendar behind `getFullYear`/`getMonth`/`getDate`, and the
    `YYYY-MM-DD` text form (the complete calendar-date representation in extended format of
    ISO 8601:2004, section 4.1.2.2) that `formatDate` prints and date inputs deliver. */
module CivilDate {
  import opened Text

  /** A `Date` whose time value is NaN, or a local calendar day numbered consecutively,
      day 0 being 1970-01-01. The time of day is dropped: the tracker only uses whole days. */
  datatype Date = Invalid | Day(ordinal: int)

  /** A year, a month 1..12 and a day of the month. */
  datatype Civil = Civil(year: int, month: int, day: int)

  predicate IsLeapYear(y: int) {
    y % 4 == 0 && (y % 100 != 0 || y % 400 == 0)
  }

  function DaysInYear(y: int): int {
    if IsLeapYear(y) then 366 else 365
  }

  function DaysInMonth(y: int, m: int): int
    requires 1 <= m <= 12
  {
    if m == 2 then (if IsLeapYear(y) then 29 else 28)
    else if m == 4 || m == 6 || m == 9 || m == 11 then 30
    else 31
  }

  predicate IsValidCivil(c: Civil) {
    1 <= c.month <= 12 && 1 <= c.day <= DaysInMonth(c.year, c.month)
  }

  /** Days of year `y` before the first of month `m` (m == 13: the whole year). */
  function DaysBeforeMonth(y: int, m: int): (n: int)
    requires 1 <= m <= 13
    ensures m == 13 ==> n == DaysInYear(y)
  {
    var common :=
      if m == 1 then 0 else if m == 2 then 31 else if m == 3 then 59 else if m == 4 then 90
      else if m == 5 then 120 else if m == 6 then 151 else if m == 7 then 181
      else if m == 8 then 212 else if m == 9 then 243 else if m == 10 then 273
      else if m == 11 then 304 else if m == 12 then 334 else 365;
    common + (if IsLeapYear(y) && m > 2 then 1 else 0)
  }

  lemma DaysBeforeMonthStep(y: int, m: int)
    requires 1 <= m <= 12
    ensures DaysBeforeMonth(y, m) + DaysInMonth(y, m) == DaysBeforeMonth(y, m + 1)
  {
  }

  /** Leap years among 1..y (for y <= 0, minus those among y+1..0), by floor division. */
  function LeapYearsThrough(y: int): int {
    y / 4 - y / 100 + y / 400
  }

  /** The day number of January 1 of year `y`. */
  function YearStart(y: int): int {
    365 * (y - 1970) + LeapYearsThrough(y - 1) - LeapYearsThrough(1969)
  }

  lemma FloorStep(y: int, k: int)
    requires k == 4 || k == 100 || k == 400
    ensures y / k - (y - 1) / k == if y % k == 0 then 1 else 0
  {
    var q, r := y / k, y % k;
    assert y == k * q + r && 0 <= r < k;
    if r == 0 {
      assert y - 1 == k * (q - 1) + (k - 1);
    } else {
      assert y - 1 == k * q + (r - 1);
    }
  }

  /** Consecutive years start `DaysInYear` apart. */
  lemma YearStartStep(y: int)
    ensures YearStart(y + 1) == YearStart(y) + DaysInYear(y)
  {
    FloorStep(y, 4);
    FloorStep(y, 100);
    FloorStep(y, 400);
    var a, b, c := y / 4 - (y - 1) / 4, y / 100 - (y - 1) / 100, y / 400 - (y - 1) / 400;
    assert LeapYearsThrough(y) - LeapYearsThrough(y - 1) == a - b + c;
    assert YearStart(y + 1) - YearStart(y) == 365 + a - b + c;
    DivisorChain(y);
  }

  /** A multiple of 400 is a multiple of 100, and a multiple of 100 one of 4. */
  lemma DivisorChain(y: int)
    ensures y % 400 == 0 ==> y % 100 == 0
    ensures y % 100 == 0 ==> y % 4 == 0
  {
    if y % 400 == 0 {
      MultipleMod(y / 400, 4, 100);
    }
    if y % 100 == 0 {
      MultipleMod(y / 100, 25, 4);
    }
  }

  /** A multiple of k * d leaves no remainder modulo k... */
  lemma MultipleMod(q: int, d: nat, k: nat)
    requires (d == 4 && k == 100) || (d == 25 && k == 4)
    ensures (k * d * q) % k == 0
  {
    var y := k * (d * q);
    assert y == k * d * q;
    assert y / k == d * q by {
      assert y == k * (d * q) + 0;
    }
  }

  lemma {:induction false} YearStartMonotone(a: int, b: int)
    requires a < b
    ensures YearStart(a + 1) <= YearStart(b)
    decreases b - a
  {
    YearStartStep(a);
    if a + 1 < b {
      YearStartMonotone(a + 1, b);
      YearStartStep(a + 1);
    }
  }

  /** The year whose January 1 is at or before day `z`, searching upwards from `y`. */
  function YearUpFrom(z: int, y: int): (r: int)
    requires YearStart(y) <= z
    ensures YearStart(r) <= z < YearStart(r + 1)
    decreases z - YearStart(y)
  {
    YearStartStep(y);
    if z < YearStart(y + 1) then y else YearUpFrom(z, y + 1)
  }

  /** Years are at most 366 days long, going forwards from 1970... */
  lemma {:induction false} YearStartAfterEpoch(k: nat)
    ensures YearStart(1970 + k) <= 366 * k
  {
    if k > 0 {
      YearStartAfterEpoch(k - 1);
      YearStartStep(1970 + k - 1);
    }
  }

  /** ... and at least 365 days long, going backwards. */
  lemma {:induction false} YearStartBeforeEpoch(k: nat)
    ensures YearStart(1970 - k) <= -365 * k
  {
    if k > 0 {
      YearStartBeforeEpoch(k - 1);
      YearStartStep(1970 - k);
    }
  }

  /** A year whose January 1 is at or before day `z`, and not far before it. */
  function YearBelow(z: int): (y: int)
    ensures YearStart(y) <= z
  {
    if z >= 0 then
      YearStartAfterEpoch(z / 366);
      1970 + z / 366
    else
      YearStartBeforeEpoch((-z + 364) / 365);
      1970 - (-z + 364) / 365
  }

  /** The year that contains day `z` (`getFullYear`). */
  function YearOf(z: int): (y: int)
    ensures YearStart(y) <= z < YearStart(y + 1)
  {
    YearUpFrom(z, YearBelow(z))
  }

  /** Only one year contains a given day. */
  lemma YearOfUnique(z: int, y: int)
    requires YearStart(y) <= z < YearStart(y + 1)
    ensures YearOf(z) == y
  {
    var y' := YearOf(z);
    if y' < y {
      YearStartMonotone(y', y);
    } else if y < y' {
      YearStartMonotone(y, y');
    }
  }

  /** The month that contains day `doy` (counted from 0) of year `y`. */
  function MonthOf(y: int, doy: int): (m: int)
    requires 0 <= doy < DaysInYear(y)
    ensures 1 <= m <= 12 && DaysBeforeMonth(y, m) <= doy < DaysBeforeMonth(y, m + 1)
  {
    if doy < DaysBeforeMonth(y, 2) then 1
    else if doy < DaysBeforeMonth(y, 3) then 2
    else if doy < DaysBeforeMonth(y, 4) then 3
    else if doy < DaysBeforeMonth(y, 5) then 4
    else if doy < DaysBeforeMonth(y, 6) then 5
    else if doy < DaysBeforeMonth(y, 7) then 6
    else if doy < DaysBeforeMonth(y, 8) then 7
    else if doy < DaysBeforeMonth(y, 9) then 8
    else if doy < DaysBeforeMonth(y, 10) then 9
    else if doy < DaysBeforeMonth(y, 11) then 10
    else if doy < DaysBeforeMonth(y, 12) then 11
    else 12
  }

  lemma MonthOfUnique(y: int, doy: int, m: int)
    requires 1 <= m <= 12 && DaysBeforeMonth(y, m) <= doy < DaysBeforeMonth(y, m + 1)
    ensures MonthOf(y, doy) == m
  {
  }

  /** The day number of a calendar date. */
  function DayNumber(c: Civil): int
    requires 1 <= c.month <= 12
  {
    YearStart(c.year) + DaysBeforeMonth(c.year, c.month) + c.day - 1
  }

  /** The calendar date of day `z`: what `getFullYear`, `getMonth() + 1` and `getDate` report.
      It is a real date and it names day `z` again. */
  function CivilOf(z: int): (c: Civil)
    ensures IsValidCivil(c) && DayNumber(c) == z
  {
    var y := YearOf(z);
    YearStartStep(y);
    var doy := z - YearStart(y);
    DayOfMonthInRange(y, doy);
    var m := MonthOf(y, doy);
    Civil(y, m, doy - DaysBeforeMonth(y, m) + 1)
  }

  /** Day `doy` (from 0) of year `y` is day 1 to `DaysInMonth` of its month. */
  lemma DayOfMonthInRange(y: int, doy: int)
    requires 0 <= doy < DaysInYear(y)
    ensures var m := MonthOf(y, doy);
      1 <= doy - DaysBeforeMonth(y, m) + 1 <= DaysInMonth(y, m)
  {
    DaysBeforeMonthStep(y, MonthOf(y, doy));
  }

  /** Every real date is the calendar date of its own day number. */
  lemma CivilOfDayNumber(c: Civil)
    requires IsValidCivil(c)
    ensures CivilOf(DayNumber(c)) == c
  {
    var z := DayNumber(c);
    YearStartStep(c.year);
    DaysBeforeMonthStep(c.year, c.month);
    YearOfUnique(z, c.year);
    var doy := z - YearStart(c.year);
    MonthOfUnique(c.year, doy, c.month);
    assert doy - DaysBeforeMonth(c.year, c.month) + 1 == c.day;
  }

  /** Day numbers and real dates correspond one to one. */
  lemma DayNumberInjective(c: Civil, d: Civil)
    requires IsValidCivil(c) && IsValidCivil(d) && DayNumber(c) == DayNumber(d)
    ensures c == d
  {
    CivilOfDayNumber(c);
    CivilOfDayNumber(d);
  }

  /** Exactly ten characters in the shape `DDDD-DD-DD`, D a decimal digit. */
  predicate IsIsoDateShape(s: string) {
    |s| == 10 && AllDigits(s[0..4]) && s[4] == '-' && AllDigits(s[5..7]) && s[7] == '-'
    && AllDigits(s[8..10])
  }

  /** `new Date(s)` for the text a date input delivers: a `YYYY-MM-DD` string naming an
      existing date is that day; anything else is an invalid date. */
  function ParseDate(s: string): (d: Date)
    ensures d.Day? ==> IsIsoDateShape(s)
  {
    if !IsIsoDateShape(s) then Invalid
    else
      var c := Civil(DigitsValue(s[0..4]), DigitsValue(s[5..7]), DigitsValue(s[8..10]));
      if IsValidCivil(c) then Day(DayNumber(c)) else Invalid
  }

  /** `formatDate`: the empty string for an invalid date, otherwise the year, a dash, the
      month padded to two digits, a dash, and the day of the month padded to two digits. */
  function FormatDate(d: Date): (s: string)
    ensures s == "" <==> d.Invalid?
  {
    match d
    case Invalid => ""
    case Day(z) => CivilText(CivilOf(z))
  }

  /** `${year}-${month}-${day}` with month and day padded to two digits. */
  function CivilText(c: Civil): (s: string)
    requires c.month >= 0 && c.day >= 0
    ensures s != ""
  {
    IntText(c.year) + "-" + PadStart2(NatText(c.month)) + "-" + PadStart2(NatText(c.day))
  }

  /** For a year written with four digits, `formatDate` yields the ISO 8601 extended calendar
      date `YYYY-MM-DD`, whose fields read back as the year, the month (01..12) and the day. */
  lemma FormatDateFields(z: int)
    requires 1000 <= CivilOf(z).year <= 9999
    ensures var s := FormatDate(Day(z)); var c := CivilOf(z);
      IsIsoDateShape(s) && s[0] != '0' &&
      DigitsValue(s[0..4]) == c.year && DigitsValue(s[5..7]) == c.month &&
      DigitsValue(s[8..10]) == c.day && 1 <= c.month <= 12
  {
    var c := CivilOf(z);
    assert FormatDate(Day(z)) == CivilText(c);
    CivilTextFields(c);
  }

  /** `s` is what `${year}-${month}-${day}` prints for `c`, with the month and the day
      padded: the year's numeral, a dash, two digits reading back as the month, a dash and
      two digits reading back as the day. */
  predicate PrintsCivil(s: string, c: Civil) {
    var k := |IntText(c.year)|;
    |s| == k + 6 && s[..k] == IntText(c.year) && s[k] == '-' && s[k + 3] == '-'
    && AllDigits(s[k + 1..k + 3]) && DigitsValue(s[k + 1..k + 3]) == c.month
    && AllDigits(s[k + 4..]) && DigitsValue(s[k + 4..]) == c.day
  }

  /** For every year, not only four-digit ones, `formatDate` prints the year, then the
      month and the day as two digits each, separated by dashes. */
  lemma FormatDateAnyYear(z: int)
    ensures PrintsCivil(FormatDate(Day(z)), CivilOf(z))
  {
    var c := CivilOf(z);
    assert FormatDate(Day(z)) == CivilText(c);
    CivilTextAnyYear(c);
  }

  /** The text of a real date in any year has that layout. */
  lemma CivilTextAnyYear(c: Civil)
    requires IsValidCivil(c)
    ensures PrintsCivil(CivilText(c), c)
  {
    var y, m, d := IntText(c.year), PadStart2(NatText(c.month)), PadStart2(NatText(c.day));
    TwoDigitField(c.month);
    TwoDigitField(c.day);
    var s := CivilText(c);
    assert s == y + "-" + m + "-" + d;
    DashedLayout(y, m, d, c.month, c.day);
  }

  /** Where the parts of `y-m-d` lie, and what the two-digit fields read back as. */
  lemma DashedLayout(y: string, m: string, d: string, mv: int, dv: int)
    requires |m| == 2 && AllDigits(m) && DigitsValue(m) == mv
    requires |d| == 2 && AllDigits(d) && DigitsValue(d) == dv
    ensures var s, k := y + "-" + m + "-" + d, |y|;
      |s| == k + 6 && s[..k] == y && s[k] == '-' && s[k + 3] == '-'
      && AllDigits(s[k + 1..k + 3]) && DigitsValue(s[k + 1..k + 3]) == mv
      && AllDigits(s[k + 4..]) && DigitsValue(s[k + 4..]) == dv
  {
    DashedAfter(y, m, d);
  }


  /** Where the parts of `y-m-d` lie, for two-character `m` and `d`. */
  lemma DashedAfter(y: string, m: string, d: string)
    requires |m| == 2 && |d| == 2
    ensures var s, k := y + "-" + m + "-" + d, |y|;
      |s| == k + 6 && s[..k] == y && s[k] == '-' && s[k + 1..k + 3] == m && s[k + 3] == '-'
      && s[k + 4..] == d
  {
  }

  /** The text of a real date with a four-digit year has the `YYYY-MM-DD` shape and reads
      back as its fields. */
  lemma CivilTextFields(c: Civil)
    requires 1000 <= c.year <= 9999 && IsValidCivil(c)
    ensures var s := CivilText(c);
      IsIsoDateShape(s) && s[0] != '0' && DigitsValue(s[0..4]) == c.year
      && DigitsValue(s[5..7]) == c.month && DigitsValue(s[8..10]) == c.day
  {
    IsoFields(c.year, c.month, c.day);
    assert CivilText(c) ==
      NatText(c.year) + "-" + PadStart2(NatText(c.month)) + "-" + PadStart2(NatText(c.day));
  }

  /** The text printed for a four-digit year, a month and a day of the month below 100. */
  lemma IsoFields(y: nat, m: nat, d: nat)
    requires 1000 <= y <= 9999 && m < 100 && d < 100
    ensures var s := NatText(y) + "-" + PadStart2(NatText(m)) + "-" + PadStart2(NatText(d));
      IsIsoDateShape(s) && s[0] != '0' &&
      DigitsValue(s[0..4]) == y && DigitsValue(s[5..7]) == m && DigitsValue(s[8..10]) == d
  {
    var ys, ms, ds := NatText(y), PadStart2(NatText(m)), PadStart2(NatText(d));
    NatTextFourDigits(y);
    NatTextRoundTrip(y);
    TwoDigitField(m);
    TwoDigitField(d);
    DashedFields(ys, ms, ds);
  }

  lemma DashedFields(a: string, b: string, c: string)
    requires |a| == 4 && |b| == 2 && |c| == 2
    ensures var s := a + "-" + b + "-" + c;
      |s| == 10 && s[0..4] == a && s[4] == '-' && s[5..7] == b && s[7] == '-' && s[8..10] == c
  {
  }

  lemma NatTextFourDigits(n: nat)
    requires 1000 <= n <= 9999
    ensures |NatText(n)| == 4
  {
    assert NatText(n / 1000) == [DigitChar(n / 1000)];
    assert NatText(n / 100) == NatText(n / 1000) + [DigitChar(n / 100 % 10)];
    assert NatText(n / 10) == NatText(n / 100) + [DigitChar(n / 10 % 10)];
  }

  /** Reading back what `formatDate` printed gives the same day (years 1000 to 9999). */
  lemma ParseFormatRoundTrip(z: int)
    requires 1000 <= CivilOf(z).year <= 9999
    ensures ParseDate(FormatDate(Day(z))) == Day(z)
  {
    FormatDateFields(z);
  }

  /** Printing a parsed `YYYY-MM-DD` date (year not starting with 0) gives back the text. */
  lemma FormatParseRoundTrip(s: string)
    requires ParseDate(s).Day? && s[0] != '0'
    ensures FormatDate(ParseDate(s)) == s
  {
    var c := Civil(DigitsValue(s[0..4]), DigitsValue(s[5..7]), DigitsValue(s[8..10]));
    assert IsValidCivil(c);
    CivilOfDayNumber(c);
    IsoTextOfFields(s);
  }

  /** The fields of a `YYYY-MM-DD` text (year not starting with 0, month and day not 00),
      printed again, are that text. */
  lemma IsoTextOfFields(s: string)
    requires IsIsoDateShape(s) && s[0] != '0'
    requires 1 <= DigitsValue(s[5..7]) && 1 <= DigitsValue(s[8..10])
    ensures CivilText(Civil(DigitsValue(s[0..4]), DigitsValue(s[5..7]), DigitsValue(s[8..10]))) == s
  {
    var ys, ms, ds := s[0..4], s[5..7], s[8..10];
    NatTextOfDigits(ys);
    TwoDigitFieldOfDigits(ms);
    TwoDigitFieldOfDigits(ds);
    assert IntText(DigitsValue(ys)) == ys;
    DashedSplit(s);
  }

  lemma DashedSplit(s: string)
    requires |s| == 10 && s[4] == '-' && s[7] == '-'
    ensures s == s[0..4] + "-" + s[5..7] + "-" + s[8..10]
  {
  }
}
