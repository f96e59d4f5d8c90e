/** The table `renderCases` (app.js) shows, without the DOM: the cases the active filter
    keeps, sorted by due date, each with its due-date text, its age and, for open cases
    only, its severity. */
module Projection {
  import opened CivilDate
  import opened Escalation
  import opened Cases

  // ---- the status filter ----

  /** Filter "open" keeps open cases, "returned" keeps returned ones, anything else all. */
  predicate Keeps(filter: string, c: Case) {
    if filter == "open" then c.status == Open
    else if filter == "returned" then c.status == Returned
    else true
  }

  /** `cases.filter(c => c.status === filter)` for the two named filters, `cases` itself
      otherwise (app.js:88-93). */
  function Select(filter: string, cases: seq<Case>): seq<Case>
    decreases |cases|
  {
    if cases == [] then []
    else
      var rest := Select(filter, cases[1..]);
      if Keeps(filter, cases[0]) then [cases[0]] + rest else rest
  }

  /** The filter shows exactly the stored cases it keeps. */
  lemma {:induction false} SelectMembers(filter: string, cases: seq<Case>, x: Case)
    ensures x in Select(filter, cases) <==> x in cases && Keeps(filter, x)
    decreases |cases|
  {
    if cases != [] {
      SelectMembers(filter, cases[1..], x);
      assert cases == [cases[0]] + cases[1..];
    }
  }

  /** The filter shows each stored case at most as often as it is stored. */
  lemma {:induction false} SelectSubMultiset(filter: string, cases: seq<Case>)
    ensures multiset(Select(filter, cases)) <= multiset(cases)
    decreases |cases|
  {
    if cases != [] {
      SelectSubMultiset(filter, cases[1..]);
      assert cases == [cases[0]] + cases[1..];
    }
  }

  /** Any filter other than the two statuses shows every case, in stored order. */
  lemma {:induction false} SelectAll(filter: string, cases: seq<Case>)
    requires filter != "open" && filter != "returned"
    ensures Select(filter, cases) == cases
    decreases |cases|
  {
    if cases != [] {
      SelectAll(filter, cases[1..]);
    }
  }

  /** Every case is shown under exactly one of the filters "open" and "returned". */
  lemma {:induction false} OpenAndReturnedPartition(cases: seq<Case>)
    ensures multiset(Select("open", cases)) + multiset(Select("returned", cases)) == multiset(cases)
    decreases |cases|
  {
    if cases != [] {
      var c, rest := cases[0], cases[1..];
      OpenAndReturnedPartition(rest);
      assert cases == [c] + rest;
      var o, d := Select("open", rest), Select("returned", rest);
      if c.status == Open {
        assert Select("open", cases) == [c] + o && Select("returned", cases) == d;
      } else {
        assert Select("open", cases) == o && Select("returned", cases) == [c] + d;
      }
    }
  }

  /** The filter keeps stored order: filtering a concatenation filters each part. */
  lemma {:induction false} SelectConcat(filter: string, a: seq<Case>, b: seq<Case>)
    ensures Select(filter, a + b) == Select(filter, a) + Select(filter, b)
    decreases |a|
  {
    if a == [] {
      assert a + b == b;
    } else {
      assert (a + b)[1..] == a[1..] + b;
      SelectConcat(filter, a[1..], b);
    }
  }

  /** The filter and the grouping by due date commute: the cases due on day k that the
      filter keeps are, in order, those the filter keeps of the stored cases due on day k. */
  lemma {:induction false} SelectKeyedOn(filter: string, s: seq<Case>, k: Date)
    ensures KeyedOn(Select(filter, s), DueKey, k) == Select(filter, KeyedOn(s, DueKey, k))
    decreases |s|
  {
    if s != [] {
      var init, last := s[..|s| - 1], s[|s| - 1];
      assert s == init + [last];
      SelectKeyedOn(filter, init, k);
      SelectConcat(filter, init, [last]);
      KeyedOnConcat(Select(filter, init), Select(filter, [last]), DueKey, k);
      var tail := if DueKey(last) == k then [last] else [];
      SelectConcat(filter, KeyedOn(init, DueKey, k), tail);
      assert Select(filter, [last]) == if Keeps(filter, last) then [last] else [];
      assert KeyedOn([last], DueKey, k) == tail;
      assert Select(filter, tail) == if DueKey(last) == k && Keeps(filter, last) then [last] else [];
    }
  }

  // ---- the sort by due date ----

  /** `new Date(c.dueDate)`. */
  function DueKey(c: Case): Date {
    ParseDate(c.dueDate)
  }

  /** The order `(a, b) => new Date(a.dueDate) - new Date(b.dueDate)` sorts by: earlier
      dates first; a date that does not parse is put before every date. */
  predicate KeyLe(x: Date, y: Date) {
    x.Invalid? || (y.Day? && x.ordinal <= y.ordinal)
  }
  /** The order on due dates is a total order: two parsed due dates compare as the time
      values `aDue - bDue` subtracts, and unparseable ones come first. */
  lemma KeyLeTotalOrder(x: Date, y: Date, w: Date)
    ensures KeyLe(x, x)
    ensures KeyLe(x, y) || KeyLe(y, x)
    ensures KeyLe(x, y) && KeyLe(y, x) ==> x == y
    ensures KeyLe(x, y) && KeyLe(y, w) ==> KeyLe(x, w)
    ensures x.Day? && y.Day? ==> (KeyLe(x, y) <==> x.ordinal <= y.ordinal)
  {
  }


  predicate SortedBy<T>(s: seq<T>, key: T -> Date) {
    forall i, j | 0 <= i < j < |s| :: KeyLe(key(s[i]), key(s[j]))
  }

  /** Every element of `s` is due no later than `d`. */
  predicate AllAtMost<T>(s: seq<T>, d: Date, key: T -> Date) {
    forall i | 0 <= i < |s| :: KeyLe(key(s[i]), d)
  }

  /** Put `c` after every element of the sorted `t` whose key is no later than its own. */
  function Insert<T>(t: seq<T>, c: T, key: T -> Date): (r: seq<T>)
    requires SortedBy(t, key)
    ensures SortedBy(r, key)
    ensures multiset(r) == multiset(t) + multiset{c}
    ensures forall d: Date | AllAtMost(t, d, key) && KeyLe(key(c), d) :: AllAtMost(r, d, key)
    decreases |t|
  {
    if t == [] || KeyLe(key(t[|t| - 1]), key(c)) then
      SortedLastBound(t, c, key);
      SortedAppend(t, c, key);
      t + [c]
    else
      var init, last := t[..|t| - 1], t[|t| - 1];
      SortedSplit(t, key);
      var r := Insert(init, c, key);
      InsertPastLast(t, c, key, r);
      r + [last]
  }

  /** The last element of a sorted list bounds all of it. */
  lemma SortedLastBound<T>(t: seq<T>, c: T, key: T -> Date)
    requires SortedBy(t, key)
    requires t == [] || KeyLe(key(t[|t| - 1]), key(c))
    ensures AllAtMost(t, key(c), key)
  {
  }

  /** What a sorted list gives its prefix. */
  lemma SortedSplit<T>(t: seq<T>, key: T -> Date)
    requires SortedBy(t, key) && t != []
    ensures SortedBy(t[..|t| - 1], key) && AllAtMost(t[..|t| - 1], key(t[|t| - 1]), key)
    ensures t == t[..|t| - 1] + [t[|t| - 1]]
  {
  }

  /** Inserting before the last element and then putting it back. */
  lemma InsertPastLast<T>(t: seq<T>, c: T, key: T -> Date, r: seq<T>)
    requires t != [] && !KeyLe(key(t[|t| - 1]), key(c))
    requires SortedBy(r, key) && multiset(r) == multiset(t[..|t| - 1]) + multiset{c}
    requires AllAtMost(t[..|t| - 1], key(t[|t| - 1]), key) && AllAtMost(r, key(t[|t| - 1]), key)
    requires t == t[..|t| - 1] + [t[|t| - 1]]
    ensures SortedBy(r + [t[|t| - 1]], key)
    ensures multiset(r + [t[|t| - 1]]) == multiset(t) + multiset{c}
    ensures forall d: Date | AllAtMost(t, d, key) && KeyLe(key(c), d) :: AllAtMost(r + [t[|t| - 1]], d, key)
  {
    SortedAppend(r, t[|t| - 1], key);
  }

  /** Appending an element due no earlier than all others keeps a list sorted. */
  lemma SortedAppend<T>(r: seq<T>, last: T, key: T -> Date)
    requires SortedBy(r, key) && AllAtMost(r, key(last), key)
    ensures SortedBy(r + [last], key)
  {
    var s := r + [last];
    forall i, j | 0 <= i < j < |s| ensures KeyLe(key(s[i]), key(s[j])) {
      if j == |r| {
        assert s[i] == r[i];
      } else {
        assert s[i] == r[i] && s[j] == r[j];
      }
    }
  }

  /** `filtered.sort(...)` (app.js:95-99): the stable sort JavaScript engines provide, as
      an insertion sort on the given key. */
  function SortBy<T>(s: seq<T>, key: T -> Date): (r: seq<T>)
    ensures SortedBy(r, key)
    ensures multiset(r) == multiset(s)
    decreases |s|
  {
    if s == [] then []
    else
      assert s == s[..|s| - 1] + [s[|s| - 1]];
      Insert(SortBy(s[..|s| - 1], key), s[|s| - 1], key)
  }

  /** The elements of `s` whose key is `k`, in their order in `s`. */
  function KeyedOn<T>(s: seq<T>, key: T -> Date, k: Date): seq<T>
    decreases |s|
  {
    if s == [] then []
    else KeyedOn(s[..|s| - 1], key, k) + (if key(s[|s| - 1]) == k then [s[|s| - 1]] else [])
  }

  lemma {:induction false} KeyedOnConcat<T>(a: seq<T>, b: seq<T>, key: T -> Date, k: Date)
    ensures KeyedOn(a + b, key, k) == KeyedOn(a, key, k) + KeyedOn(b, key, k)
    decreases |b|
  {
    if b == [] {
      assert a + b == a;
    } else {
      var b' := b[..|b| - 1];
      assert (a + b)[..|a + b| - 1] == a + b';
      KeyedOnConcat(a, b', key, k);
    }
  }

  lemma {:induction false} InsertKeyedOn<T>(t: seq<T>, c: T, key: T -> Date, k: Date)
    requires SortedBy(t, key)
    ensures KeyedOn(Insert(t, c, key), key, k) ==
      KeyedOn(t, key, k) + (if key(c) == k then [c] else [])
    decreases |t|
  {
    if t == [] || KeyLe(key(t[|t| - 1]), key(c)) {
      KeyedOnConcat(t, [c], key, k);
      assert [c][..0] == [];
    } else {
      var init, last := t[..|t| - 1], t[|t| - 1];
      SortedSplit(t, key);
      InsertKeyedOn(init, c, key, k);
      assert Insert(t, c, key) == Insert(init, c, key) + [last];
      KeyedOnMovesPast(Insert(init, c, key), init, last, c, key, k);
      assert t == init + [last];
    }
  }

  /** Moving `last` past `c` when their keys differ does not change any key's sublist. */
  lemma KeyedOnMovesPast<T>(u: seq<T>, init: seq<T>, last: T, c: T, key: T -> Date, k: Date)
    requires key(last) != key(c)
    requires KeyedOn(u, key, k) == KeyedOn(init, key, k) + (if key(c) == k then [c] else [])
    ensures KeyedOn(u + [last], key, k) ==
      KeyedOn(init + [last], key, k) + (if key(c) == k then [c] else [])
  {
    KeyedOnSnoc(u, last, key, k);
    KeyedOnSnoc(init, last, key, k);
    var a := KeyedOn(init, key, k);
    if key(c) == k {
      assert KeyedOn(u + [last], key, k) == a + [c];
    } else if key(last) == k {
      assert KeyedOn(u + [last], key, k) == a + [last];
    }
  }

  /** Appending one element extends its key's sublist by it. */
  lemma KeyedOnSnoc<T>(s: seq<T>, x: T, key: T -> Date, k: Date)
    ensures KeyedOn(s + [x], key, k) == KeyedOn(s, key, k) + (if key(x) == k then [x] else [])
  {
    assert (s + [x])[..|s|] == s;
  }

  /** The sort is stable: elements with the same key keep their relative order. */
  lemma {:induction false} SortByStable<T>(s: seq<T>, key: T -> Date, k: Date)
    ensures KeyedOn(SortBy(s, key), key, k) == KeyedOn(s, key, k)
    decreases |s|
  {
    if s != [] {
      var init, last := s[..|s| - 1], s[|s| - 1];
      SortByStable(init, key, k);
      InsertKeyedOn(SortBy(init, key), last, key, k);
    }
  }

  /** A list already in order is left as it is. */
  lemma {:induction false} SortByOfSorted<T>(s: seq<T>, key: T -> Date)
    requires SortedBy(s, key)
    ensures SortBy(s, key) == s
    decreases |s|
  {
    if s != [] {
      var init, last := s[..|s| - 1], s[|s| - 1];
      SortedSplit(s, key);
      SortByOfSorted(init, key);
      assert init == [] || KeyLe(key(init[|init| - 1]), key(last));
    }
  }

  // ---- the rows ----

  /** The colour class a row gets (app.js:109-111): only open cases are coloured. */
  datatype RowStyle = Unstyled | Styled(bucket: Bucket)

  /** What one table row shows besides the case's own fields: its due date as a date
      (the due column prints it with `formatDate`), the colour class, the text of the days
      column, the status pill and the status the row's first button sets. */
  datatype Row = Row(
    item: Case,
    due: Date,
    style: RowStyle,
    daysText: string,
    statusText: string,
    toggleTo: Status)

  /** The row of case `c` with status info `info` (app.js:104-164). */
  function RowFor(c: Case, info: StatusInfo): (row: Row)
    ensures row.item == c && row.due == DueKey(c)
    ensures row.style.Styled? <==> c.status == Open
    ensures c.status == Open ==> row.style.bucket == info.bucket && row.daysText == info.badgeText
    ensures c.status == Returned ==> row.daysText == DayCountText(info.days)
    ensures row.statusText == if c.status == Open then "Open" else "Returned"
    ensures row.toggleTo != c.status
  {
    if c.status == Open then
      Row(c, ParseDate(c.dueDate), Styled(info.bucket), info.badgeText, "Open", Returned)
    else
      Row(c, ParseDate(c.dueDate), Unstyled, DayCountText(info.days), "Returned", Open)
  }

  /** The text of the due column: `formatDate(new Date(item.dueDate))` (app.js:104, 126). */
  function DueCellText(row: Row): string {
    FormatDate(row.due)
  }

  /** The due column prints a stored `YYYY-MM-DD` due date (year not starting with 0)
      exactly as it was stored, and nothing for a due date that does not parse. */
  lemma DueCellShowsStoredDate(c: Case, info: StatusInfo)
    ensures ParseDate(c.dueDate).Day? && c.dueDate[0] != '0' ==>
      DueCellText(RowFor(c, info)) == c.dueDate
    ensures ParseDate(c.dueDate).Invalid? ==> DueCellText(RowFor(c, info)) == ""
  {
    if ParseDate(c.dueDate).Day? && c.dueDate[0] != '0' {
      FormatParseRoundTrip(c.dueDate);
    }
  }

  /** The cases of `rows`, top to bottom. */
  function Items(rows: seq<Row>): (items: seq<Case>)
    ensures |items| == |rows|
    ensures forall k | 0 <= k < |rows| :: items[k] == rows[k].item
  {
    if rows == [] then [] else Items(rows[..|rows| - 1]) + [rows[|rows| - 1].item]
  }

  /** One row per case of `shown`, in the same order. */
  function RowsOf(shown: seq<Case>, today: Date): (rows: seq<Row>)
    ensures |rows| == |shown|
    decreases |shown|
  {
    if shown == [] then []
    else
      var last := shown[|shown| - 1];
      RowsOf(shown[..|shown| - 1], today) + [RowFor(last, StatusOn(last.dateEscalated, today))]
  }

  /** Row k shows case k of `shown`. */
  lemma {:induction false} RowsOfAt(shown: seq<Case>, today: Date, k: int)
    requires 0 <= k < |shown|
    ensures RowsOf(shown, today)[k] == RowFor(shown[k], StatusOn(shown[k].dateEscalated, today))
    decreases |shown|
  {
    if k < |shown| - 1 {
      RowsOfAt(shown[..|shown| - 1], today, k);
    }
  }

  /** The rows list the cases they were built from, in that order. */
  lemma ItemsOfRows(shown: seq<Case>, today: Date)
    ensures Items(RowsOf(shown, today)) == shown
  {
    var items := Items(RowsOf(shown, today));
    forall k | 0 <= k < |shown| ensures items[k] == shown[k] {
      RowsOfAt(shown, today, k);
    }
  }

  /** `filtered.forEach(...)` (app.js:103-179): one row per case, top to bottom, each with
      the status info `computeStatusInfo` gives on day `today`. */
  method BuildRows(shown: seq<Case>, today: Date) returns (rows: seq<Row>)
    ensures rows == RowsOf(shown, today)
  {
    rows := [];
    for i := 0 to |shown|
      invariant rows == RowsOf(shown[..i], today)
    {
      var info := ComputeStatusInfo(shown[i].dateEscalated, today);
      RowsOfSnoc(shown, i, today);
      rows := rows + [RowFor(shown[i], info)];
    }
    assert shown[..|shown|] == shown;
  }

  /** The rows of one more case are the rows so far and the row of that case. */
  lemma RowsOfSnoc(shown: seq<Case>, i: int, today: Date)
    requires 0 <= i < |shown|
    ensures RowsOf(shown[..i + 1], today) ==
      RowsOf(shown[..i], today) + [RowFor(shown[i], StatusOn(shown[i].dateEscalated, today))]
  {
    assert shown[..i + 1][..i] == shown[..i];
  }

  /** The table of `renderCases(filter)` on day `today`, after `loadCases()` gave `cases`
      (app.js:88-111, 130-139): the selected cases in due-date order, one row each. */
  method BuildView(filter: string, cases: seq<Case>, today: Date) returns (rows: seq<Row>)
    ensures rows == RowsOf(SortBy(Select(filter, cases), DueKey), today)
    ensures Items(rows) == SortBy(Select(filter, cases), DueKey)
    ensures multiset(Items(rows)) == multiset(Select(filter, cases))
    ensures forall k | 0 <= k < |rows| :: rows[k].item in cases && Keeps(filter, rows[k].item)
    ensures forall i, j | 0 <= i < j < |rows| :: KeyLe(DueKey(rows[i].item), DueKey(rows[j].item))
    ensures forall k | 0 <= k < |rows| :: rows[k].style.Styled? <==> rows[k].item.status == Open
    ensures forall d: Date :: KeyedOn(Items(rows), DueKey, d) == Select(filter, KeyedOn(cases, DueKey, d))
  {
    var shown := SortBy(Select(filter, cases), DueKey);
    rows := BuildRows(shown, today);
    ViewOrder(filter, cases, today);
    ViewSelection(filter, cases, today);
    ViewSeverity(shown, today);
    forall d: Date ensures KeyedOn(Items(rows), DueKey, d) == Select(filter, KeyedOn(cases, DueKey, d)) {
      ViewStable(filter, cases, d);
    }
  }

  /** Cases due on the same day keep their stored order in the table: the filter keeps
      order and the sort is stable. */
  lemma ViewStable(filter: string, cases: seq<Case>, d: Date)
    ensures KeyedOn(SortBy(Select(filter, cases), DueKey), DueKey, d)
      == Select(filter, KeyedOn(cases, DueKey, d))
  {
    SortByStable(Select(filter, cases), DueKey, d);
    SelectKeyedOn(filter, cases, d);
  }

  /** The rows list the selected cases, in due-date order. */
  lemma ViewOrder(filter: string, cases: seq<Case>, today: Date)
    ensures var rows := RowsOf(SortBy(Select(filter, cases), DueKey), today);
      Items(rows) == SortBy(Select(filter, cases), DueKey)
      && multiset(Items(rows)) == multiset(Select(filter, cases))
      && (forall i, j | 0 <= i < j < |rows| :: KeyLe(DueKey(rows[i].item), DueKey(rows[j].item)))
  {
    ItemsOfRows(SortBy(Select(filter, cases), DueKey), today);
  }

  /** Every row shows a stored case the filter keeps. */
  lemma ViewSelection(filter: string, cases: seq<Case>, today: Date)
    ensures var rows := RowsOf(SortBy(Select(filter, cases), DueKey), today);
      forall k | 0 <= k < |rows| :: rows[k].item in cases && Keeps(filter, rows[k].item)
  {
    var shown := SortBy(Select(filter, cases), DueKey);
    var rows := RowsOf(shown, today);
    ItemsOfRows(shown, today);
    forall k | 0 <= k < |rows| ensures rows[k].item in cases && Keeps(filter, rows[k].item) {
      assert rows[k].item == shown[k] by {
        assert Items(rows)[k] == rows[k].item;
      }
      ShownIsSelected(filter, cases, k);
    }
  }

  /** Exactly the rows of open cases are coloured. */
  lemma ViewSeverity(shown: seq<Case>, today: Date)
    ensures var rows := RowsOf(shown, today);
      forall k | 0 <= k < |rows| :: rows[k].style.Styled? <==> rows[k].item.status == Open
  {
    forall k | 0 <= k < |shown| {
      RowsOfAt(shown, today, k);
    }
  }

  /** The sorted selection holds only cases of the list that the filter keeps. */
  lemma ShownIsSelected(filter: string, cases: seq<Case>, k: int)
    requires 0 <= k < |SortBy(Select(filter, cases), DueKey)|
    ensures var x := SortBy(Select(filter, cases), DueKey)[k]; x in cases && Keeps(filter, x)
  {
    var shown := SortBy(Select(filter, cases), DueKey);
    var x := shown[k];
    assert x in multiset(shown);
    SelectMembers(filter, cases, x);
  }
}
