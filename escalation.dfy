/** Severity of an open case: `computeStatusInfo` (app.js) sorts a case's age in business
    days into one of three buckets and writes the matching badge label. */
module Escalation {
  import opened Text
  import opened CivilDate
  import opened Calendar

  /** The colour of a row and its badge: `age-green`/`badge-green` and so on. */
  datatype Bucket = Green | Yellow | Red

  /** What `computeStatusInfo` returns: the age, the bucket both CSS classes are taken
      from, and the badge text. */
  datatype StatusInfo = StatusInfo(days: nat, bucket: Bucket, badgeText: string)

  /** The first age that is a warning. */
  const WarningAge: nat := 5
  /** The last age that is still only a warning; older cases are overdue. */
  const DueAge: nat := 7

  /** Green before a warning, yellow from `WarningAge` to `DueAge`, red after. */
  function BucketOf(days: nat): Bucket {
    if WarningAge <= days <= DueAge then Yellow
    else if days > DueAge then Red
    else Green
  }

  /** The word in parentheses at the end of the badge label. */
  function BucketWord(b: Bucket): string {
    match b
    case Green => "OK"
    case Yellow => "warning"
    case Red => "overdue"
  }

  /** Buckets in order of severity. */
  function Severity(b: Bucket): nat {
    match b
    case Green => 0
    case Yellow => 1
    case Red => 2
  }

  /** `${days} business day${days === 1 ? "" : "s"}`. */
  function DayCountText(days: nat): string {
    NatText(days) + (if days == 1 then " business day" else " business days")
  }

  /** The day count text opens with a numeral that reads back as the age, and the unit is
      singular exactly for an age of one. */
  lemma DayCountTextReadsBack(days: nat)
    ensures var s, k := DayCountText(days), |NatText(days)|;
      k <= |s| && AllDigits(s[..k]) && DigitsValue(s[..k]) == days
      && (s[k..] == " business day" <==> days == 1)
      && (s[|s| - 1] == 's' <==> days != 1)
  {
    var s, k := DayCountText(days), |NatText(days)|;
    assert s[..k] == NatText(days);
    NatTextRoundTrip(days);
    assert s[k..] == if days == 1 then " business day" else " business days";
  }

  /** The status info of a case `days` business days old. */
  function Classify(days: nat): (info: StatusInfo)
    ensures info.days == days
    ensures info.bucket == Green <==> days <= 4
    ensures info.bucket == Yellow <==> 5 <= days <= 7
    ensures info.bucket == Red <==> days >= 8
    ensures info.badgeText == DayCountText(days) + " (" + BucketWord(info.bucket) + ")"
  {
    var b := BucketOf(days);
    StatusInfo(days, b, DayCountText(days) + " (" + BucketWord(b) + ")")
  }

  /** The three labels differ, so the badge text alone tells the bucket. */
  lemma LabelDeterminesBucket(days: nat, days': nat)
    requires Classify(days).badgeText == Classify(days').badgeText
    ensures Classify(days).bucket == Classify(days').bucket
  {
    var a, b := Classify(days), Classify(days');
    
    var sa, sb := " (" + BucketWord(a.bucket) + ")", " (" + BucketWord(b.bucket) + ")";
    assert a.badgeText[|a.badgeText| - 2] == sa[|sa| - 2];
    assert b.badgeText[|b.badgeText| - 2] == sb[|sb| - 2];
  }

  /** The status info of a case escalated on `dateEscalated`, on day `today`. */
  function StatusOn(dateEscalated: string, today: Date): StatusInfo {
    Classify(BusinessAge(ParseDate(dateEscalated), today))
  }

  /** `computeStatusInfo(dateEscalated)` (app.js:62-79) on the day `today`: start green, then
      switch to yellow or red by the business-day age. */
  method ComputeStatusInfo(dateEscalated: string, today: Date) returns (info: StatusInfo)
    ensures info == StatusOn(dateEscalated, today)
    ensures ParseDate(dateEscalated).Invalid? || today.Invalid? ==> info.bucket == Green
  {
    var days := BusinessDaysBetween(dateEscalated, today);
    var bucket := Green;
    var word := "OK";
    if days >= 5 && days <= 7 {
      bucket := Yellow;
      word := "warning";
    } else if days > 7 {
      bucket := Red;
      word := "overdue";
    }
    info := StatusInfo(days, bucket, DayCountText(days) + " (" + word + ")");
  }

  /** A case only ever grows more severe as the days go by. */
  lemma SeverityGrowsWithTime(start: Date, e: int, e': int)
    requires e <= e'
    ensures Severity(Classify(BusinessAge(start, Day(e))).bucket)
      <= Severity(Classify(BusinessAge(start, Day(e'))).bucket)
  {
    BusinessAgeMonotone(start, e, e');
  }

  /** A case escalated on a business day is yellow on its due date, its 7th business day. */
  lemma DueDateIsLastWarningDay(z: int)
    requires IsBusinessDay(z)
    ensures Classify(BusinessAge(Day(z), Day(NthBusinessDayAfter(z, 7)))).bucket == Yellow
  {
    BusinessAgeAtNthBusinessDay(z, 7);
  }

  /** A case escalated on a business day is red on every business day after its due date,
      or after any later business day. */
  lemma OverdueAfterDueDate(z: int, n: nat, e: int)
    requires DueAge <= n
    requires IsBusinessDay(z) && IsBusinessDay(e) && NthBusinessDayAfter(z, n) < e
    ensures Classify(BusinessAge(Day(z), Day(e))).bucket == Red
  {
    AgeBeyondNthBusinessDay(z, n, e);
  }

  /** A case escalated on a Saturday or Sunday is only 6 business days old on its due date,
      and still yellow on the business day after it. */
  lemma WeekendEscalationWarnsLonger(z: int)
    requires !IsBusinessDay(z)
    ensures BusinessAge(Day(z), Day(NthBusinessDayAfter(z, 7))) == 6
    ensures Classify(BusinessAge(Day(z), Day(NthBusinessDayAfter(z, 8)))).bucket == Yellow
    ensures Classify(BusinessAge(Day(z), Day(NthBusinessDayAfter(z, 9)))).bucket == Red
  {
    BusinessAgeAtNthBusinessDay(z, 7);
    BusinessAgeAtNthBusinessDay(z, 8);
    BusinessAgeAtNthBusinessDay(z, 9);
  }
}
