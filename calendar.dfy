/** The business-day calendar: `addBusinessDays` and `businessDaysBetween` (app.js), with
    weekends (Saturday and Sunday) as the only non-working days. */
module Calendar {
  import opened Text
  import opened CivilDate

  /** `getDay` of day 0, 1970-01-01: a Thursday. */
  const EpochWeekday := 4

  /** `getDay`: 0 for Sunday, 1 for Monday, ..., 6 for Saturday. */
  function Weekday(z: int): (w: int)
    ensures 0 <= w < 7
  {
    (z + EpochWeekday) % 7
  }

  /** Monday to Friday. */
  predicate IsBusinessDay(z: int) {
    Weekday(z) != 0 && Weekday(z) != 6
  }

  lemma WeekdaySucc(z: int)
    ensures Weekday(z + 1) == (Weekday(z) + 1) % 7
  {
  }

  /** No weekend lasts three days. */
  lemma WeekendLastsTwoDays(z: int)
    requires !IsBusinessDay(z + 1) && !IsBusinessDay(z + 2)
    ensures IsBusinessDay(z + 3)
  {
    WeekdaySucc(z + 1);
    WeekdaySucc(z + 2);
  }

  /** The test in both loops: `day !== 0 && day !== 6` where `day = getDay()`. For an
      invalid date `getDay` is NaN, which differs from both, so every step counts. */
  predicate CountsAsBusinessDay(d: Date) {
    match d
    case Invalid => true
    case Day(z) => IsBusinessDay(z)
  }

  /** `setDate(getDate() + 1)`: the next calendar day; an invalid date stays invalid. */
  function NextDay(d: Date): (r: Date)
    ensures r.Day? <==> d.Day?
    ensures d.Day? ==> r.ordinal == d.ordinal + 1
  {
    match d
    case Invalid => Invalid
    case Day(z) => Day(z + 1)
  }

  /** The number of business days z with lo <= z < hi. */
  function BusinessDaysIn(lo: int, hi: int): (n: nat)
    ensures n <= if hi <= lo then 0 else hi - lo
    decreases hi - lo
  {
    if hi <= lo then 0 else BusinessDaysIn(lo, hi - 1) + (if IsBusinessDay(hi - 1) then 1 else 0)
  }

  /** Counting over [lo, hi) is counting over [lo, mid) and then over [mid, hi). */
  lemma {:induction false} BusinessDaysInSplit(lo: int, mid: int, hi: int)
    requires lo <= mid <= hi
    ensures BusinessDaysIn(lo, hi) == BusinessDaysIn(lo, mid) + BusinessDaysIn(mid, hi)
    decreases hi - mid
  {
    if mid < hi {
      BusinessDaysInSplit(lo, mid, hi - 1);
    }
  }

  /** Widening the range never lowers the count. */
  lemma BusinessDaysInMonotone(lo: int, hi: int, hi': int)
    requires lo <= hi <= hi'
    ensures BusinessDaysIn(lo, hi) <= BusinessDaysIn(lo, hi')
  {
    BusinessDaysInSplit(lo, hi, hi');
  }

  /** The first business day after day `z`. */
  function NextBusinessDay(z: int): (r: int)
    ensures z < r <= z + 3 && IsBusinessDay(r)
    ensures forall k | z < k < r :: !IsBusinessDay(k)
  {
    if IsBusinessDay(z + 1) then z + 1
    else if IsBusinessDay(z + 2) then z + 2
    else WeekendLastsTwoDays(z); z + 3
  }

  /** Moving on to the next business day adds exactly one to the count. */
  lemma CountToNextBusinessDay(lo: int, z: int)
    requires lo <= z + 1
    ensures BusinessDaysIn(lo, NextBusinessDay(z) + 1) == BusinessDaysIn(lo, z + 1) + 1
  {
    var r := NextBusinessDay(z);
    BusinessDaysInSplit(lo, z + 1, r + 1);
    assert BusinessDaysIn(z + 1, r) == 0 by {
      NoBusinessDaysIn(z + 1, r);
    }
  }

  lemma {:induction false} NoBusinessDaysIn(lo: int, hi: int)
    requires forall k | lo <= k < hi :: !IsBusinessDay(k)
    ensures BusinessDaysIn(lo, hi) == 0
    decreases hi - lo
  {
    if lo < hi {
      NoBusinessDaysIn(lo, hi - 1);
    }
  }

  /** The n-th business day after day `z` (day `z` itself when n == 0). */
  function NthBusinessDayAfter(z: int, n: nat): (r: int)
    ensures z <= r
    ensures n > 0 ==> z < r && IsBusinessDay(r)
    decreases n
  {
    if n == 0 then z else NextBusinessDay(NthBusinessDayAfter(z, n - 1))
  }

  /** Exactly n business days lie in (z, NthBusinessDayAfter(z, n)]. */
  lemma {:induction false} NthBusinessDayCount(z: int, n: nat)
    ensures BusinessDaysIn(z + 1, NthBusinessDayAfter(z, n) + 1) == n
    decreases n
  {
    if n > 0 {
      NthBusinessDayCount(z, n - 1);
      CountToNextBusinessDay(z + 1, NthBusinessDayAfter(z, n - 1));
    }
  }

  /** A business day r after z with exactly n business days in (z, r] is the n-th one. */
  lemma NthBusinessDayUnique(z: int, n: nat, r: int)
    requires n > 0 && z < r && IsBusinessDay(r) && BusinessDaysIn(z + 1, r + 1) == n
    ensures r == NthBusinessDayAfter(z, n)
  {
    var q := NthBusinessDayAfter(z, n);
    NthBusinessDayCount(z, n);
    if r < q {
      LaterBusinessDayCountsMore(z + 1, r, q);
    } else if q < r {
      LaterBusinessDayCountsMore(z + 1, q, r);
    }
  }

  lemma LaterBusinessDayCountsMore(lo: int, a: int, b: int)
    requires lo <= a + 1 && a < b && IsBusinessDay(b)
    ensures BusinessDaysIn(lo, a + 1) < BusinessDaysIn(lo, b + 1)
  {
    BusinessDaysInSplit(lo, a + 1, b + 1);
    assert BusinessDaysIn(a + 1, b + 1) >= 1;
  }

  /** `addBusinessDays` as a value: an invalid date stays invalid, a day moves to the n-th
      business day after it. */
  function BusinessDaysLater(start: Date, n: nat): (r: Date)
    ensures r.Day? <==> start.Day?
  {
    match start
    case Invalid => Invalid
    case Day(z) => Day(NthBusinessDayAfter(z, n))
  }

  /** How many steps the loop of `addBusinessDays` may still take without counting. */
  function StepsToBusinessDay(d: Date): nat {
    match d
    case Invalid => 0
    case Day(z) => if IsBusinessDay(z + 1) then 0 else if IsBusinessDay(z + 2) then 1 else 2
  }

  /** `addBusinessDays(startText, n)` (app.js:18-29): step one calendar day at a time and
      count Monday to Friday until n have been counted. */
  method AddBusinessDays(startText: string, n: nat) returns (r: Date)
    ensures r == BusinessDaysLater(ParseDate(startText), n)
    ensures r.Day? <==> ParseDate(startText).Day?
    ensures r.Day? && n == 0 ==> r == ParseDate(startText)
    ensures r.Day? && n > 0 ==>
      ParseDate(startText).ordinal < r.ordinal && IsBusinessDay(r.ordinal)
      && BusinessDaysIn(ParseDate(startText).ordinal + 1, r.ordinal + 1) == n
  {
    r := AdvanceBusinessDays(ParseDate(startText), n);
  }

  /** The loop of `addBusinessDays`, from the parsed start date. */
  method AdvanceBusinessDays(start: Date, n: nat) returns (r: Date)
    ensures r == BusinessDaysLater(start, n)
    ensures r.Day? <==> start.Day?
    ensures r.Day? && n == 0 ==> r == start
    ensures r.Day? && n > 0 ==>
      start.ordinal < r.ordinal && IsBusinessDay(r.ordinal)
      && BusinessDaysIn(start.ordinal + 1, r.ordinal + 1) == n
  {
    var date := start;
    var added := 0;
    while added < n
      invariant added <= n
      invariant n == 0 ==> date == start
      invariant date.Day? <==> start.Day?
      invariant date.Day? ==> start.ordinal <= date.ordinal
      invariant date.Day? ==> BusinessDaysIn(start.ordinal + 1, date.ordinal + 1) == added
      invariant date.Day? && added == n && n > 0 ==> IsBusinessDay(date.ordinal)
      decreases n - added, StepsToBusinessDay(date)
    {
      if date.Day? && !IsBusinessDay(date.ordinal + 1) && !IsBusinessDay(date.ordinal + 2) {
        WeekendLastsTwoDays(date.ordinal);
      }
      date := NextDay(date);
      if CountsAsBusinessDay(date) {
        added := added + 1;
      }
    }
    r := date;
    AddedDaysReachNth(start, n, r);
  }

  /** Where the loop of `addBusinessDays` stops is the n-th business day after the start. */
  lemma AddedDaysReachNth(start: Date, n: nat, date: Date)
    requires date.Day? <==> start.Day?
    requires n == 0 ==> date == start
    requires date.Day? ==> start.ordinal <= date.ordinal
    requires date.Day? ==> BusinessDaysIn(start.ordinal + 1, date.ordinal + 1) == n
    requires date.Day? && n > 0 ==> IsBusinessDay(date.ordinal)
    ensures date == BusinessDaysLater(start, n)
  {
    if date.Day? && n > 0 {
      NthBusinessDayUnique(start.ordinal, n, date.ordinal);
    }
  }

  /** The age of a case in business days: the number of business days in [start, end]
      less one, never negative, and 0 when either date is invalid or end is before start. */
  function BusinessAge(start: Date, end: Date): (n: nat)
    ensures start.Invalid? || end.Invalid? || end.ordinal < start.ordinal ==> n == 0
  {
    if start.Invalid? || end.Invalid? || end.ordinal < start.ordinal then 0
    else
      var count := BusinessDaysIn(start.ordinal, end.ordinal + 1);
      if count - 1 > 0 then count - 1 else 0
  }

  /** `businessDaysBetween(startText, end)` (app.js:31-52): walk from start to end inclusive,
      counting Monday to Friday, then subtract one and clamp at 0. */
  method BusinessDaysBetween(startText: string, end: Date) returns (r: nat)
    ensures r == BusinessAge(ParseDate(startText), end)
    ensures ParseDate(startText).Invalid? || end.Invalid? ==> r == 0
    ensures end.Day? && ParseDate(startText).Day? && end.ordinal < ParseDate(startText).ordinal ==> r == 0
  {
    var start := ParseDate(startText);
    if start.Invalid? || end.Invalid? {
      return 0;
    }
    if end.ordinal < start.ordinal {
      return 0;
    }
    var count := 0;
    var current := start;
    while current.ordinal <= end.ordinal
      invariant current.Day? && start.ordinal <= current.ordinal <= end.ordinal + 1
      invariant count == BusinessDaysIn(start.ordinal, current.ordinal)
      decreases end.ordinal - current.ordinal
    {
      if CountsAsBusinessDay(current) {
        count := count + 1;
      }
      current := NextDay(current);
    }
    r := if count - 1 > 0 then count - 1 else 0;
  }

  /** A case escalated today is 0 days old, on a weekday or at a weekend alike. */
  lemma BusinessAgeSameDay(z: int)
    ensures BusinessAge(Day(z), Day(z)) == 0
  {
  }

  /** From a business day, the age is the number of business days after it up to `end`. */
  lemma BusinessAgeFromBusinessDay(z: int, e: int)
    requires IsBusinessDay(z) && z <= e
    ensures BusinessAge(Day(z), Day(e)) == BusinessDaysIn(z + 1, e + 1)
  {
    BusinessDaysInSplit(z, z + 1, e + 1);
  }

  /** From a business day z, any business day after the n-th one is more than n business
      days later. */
  lemma AgeBeyondNthBusinessDay(z: int, n: nat, e: int)
    requires IsBusinessDay(z) && IsBusinessDay(e) && NthBusinessDayAfter(z, n) < e
    ensures BusinessAge(Day(z), Day(e)) > n
  {
    NthBusinessDayCount(z, n);
    LaterBusinessDayCountsMore(z + 1, NthBusinessDayAfter(z, n), e);
    BusinessAgeFromBusinessDay(z, e);
  }

  /** Ages only grow as the end date moves on. */
  lemma BusinessAgeMonotone(start: Date, e: int, e': int)
    requires e <= e'
    ensures BusinessAge(start, Day(e)) <= BusinessAge(start, Day(e'))
  {
    if start.Day? && start.ordinal <= e {
      BusinessDaysInMonotone(start.ordinal, e + 1, e' + 1);
    }
  }

  /** A case is never older in business days than in calendar days. */
  lemma BusinessAgeBound(z: int, e: int)
    requires z <= e
    ensures BusinessAge(Day(z), Day(e)) <= e - z
  {
  }

  /** On the n-th business day after its escalation day a case is n business days old when
      it was escalated on a business day, and n - 1 (at least 0) when on a weekend. */
  lemma BusinessAgeAtNthBusinessDay(z: int, n: nat)
    ensures BusinessAge(Day(z), Day(NthBusinessDayAfter(z, n))) ==
      if IsBusinessDay(z) || n == 0 then n else n - 1
  {
    var e := NthBusinessDayAfter(z, n);
    NthBusinessDayCount(z, n);
    BusinessDaysInSplit(z, z + 1, e + 1);
  }

  /** 2024-01-01, a Monday, plus 7 business days is 2024-01-10: the weekend of 6 and 7
      January is skipped. */
  lemma DueDateExample()
    ensures ParseDate("2024-01-01") == Day(19723) && Weekday(19723) == 1
    ensures BusinessDaysLater(ParseDate("2024-01-01"), 7) == ParseDate("2024-01-10")
  {
    ParseFirstExample();
    ParseTenthExample();
    SeventhBusinessDayExample();
  }

  /** Day 19723 (2024-01-01) is a Monday and its 7th business day is day 19732. */
  lemma SeventhBusinessDayExample()
    ensures Weekday(19723) == 1
    ensures NthBusinessDayAfter(19723, 7) == 19732
  {
    assert NthBusinessDayAfter(19723, 1) == 19724;
    assert NthBusinessDayAfter(19723, 2) == 19725;
    assert NthBusinessDayAfter(19723, 3) == 19726;
    assert NthBusinessDayAfter(19723, 4) == 19727;
    assert NthBusinessDayAfter(19723, 5) == 19730;
    assert NthBusinessDayAfter(19723, 6) == 19731;
  }

  /** `formatDate` prints the due day of that example as "2024-01-10". */
  lemma DueDateTextExample()
    ensures FormatDate(ParseDate("2024-01-10")) == "2024-01-10"
  {
    ParseTenthExample();
    FormatParseRoundTrip("2024-01-10");
  }

  /** "2024-01-01" is day 19723. */
  lemma ParseFirstExample()
    ensures ParseDate("2024-01-01") == Day(19723)
  {
    var s := "2024-01-01";
    assert s[..8] == "2024-01-" && s[8..10] == "01";
    assert DigitsValue("01") == 1 by {
      assert "01"[..1] == "0" && "0"[..0] == "";
    }
    ParseJanuary2024(s);
  }

  /** "2024-01-10" is day 19732. */
  lemma ParseTenthExample()
    ensures ParseDate("2024-01-10") == Day(19732)
  {
    var s := "2024-01-10";
    assert s[..8] == "2024-01-" && s[8..10] == "10";
    assert DigitsValue("10") == 10 by {
      assert "10"[..1] == "1" && "1"[..0] == "";
    }
    ParseJanuary2024(s);
  }

  /** A day of January 2024 parses to its day number, counted from 2024-01-01 = day 19723. */
  lemma ParseJanuary2024(s: string)
    requires |s| == 10 && s[..8] == "2024-01-" && AllDigits(s[8..10])
    requires 1 <= DigitsValue(s[8..10]) <= 31
    ensures ParseDate(s) == Day(19722 + DigitsValue(s[8..10]))
  {
    assert s[0..4] == s[..8][0..4] == "2024";
    assert s[5..7] == s[..8][5..7] == "01";
    assert s[4] == s[..8][4] && s[7] == s[..8][7];
    assert DigitsValue("2024") == 2024 by {
      assert "2024"[..3] == "202" && "202"[..2] == "20" && "20"[..1] == "2" && "2"[..0] == "";
    }
    assert DigitsValue("01") == 1 by {
      assert "01"[..1] == "0" && "0"[..0] == "";
    }
    assert YearStart(2024) == 19723;
  }
}
