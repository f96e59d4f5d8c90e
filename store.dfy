/** The saved list of cases and the operations that rewrite it: `loadCases`, `saveCases`,
    `updateCaseStatus`, `deleteCase` and the create path of `handleFormSubmit` (app.js).
    Every operation reads the whole saved list, computes a new one and saves it back. */
module Store {
  import opened Text
  import opened CivilDate
  import opened Calendar
  import opened Escalation
  import opened Cases
  import opened Projection

  datatype Option<T> = None | Some(value: T)

  /** What reading the storage key and parsing it as JSON can give: no value (or an empty
      one), text that does not parse, a parsed value that is not an array, or a list of
      cases. */
  datatype Blob = Absent | Unparseable | NotAList | CaseList(cases: seq<Case>)

  /** `loadCases` (app.js:3-12) on what the storage held. */
  function LoadCases(b: Blob): (cases: seq<Case>)
    ensures b.CaseList? ==> cases == b.cases
    ensures !b.CaseList? ==> cases == []
  {
    if b.CaseList? then b.cases else []
  }

  /** What `saveCases` (app.js:14-16) leaves in the storage: loading it gives the list back. */
  function SavedBlob(cases: seq<Case>): (b: Blob)
    ensures LoadCases(b) == cases
  {
    CaseList(cases)
  }

  /** Loading what was loaded and saved again gives the same list, so a load-save round on a
      damaged value repairs it to the empty list and on a good value changes nothing. */
  lemma ReloadIsStable(b: Blob)
    ensures LoadCases(SavedBlob(LoadCases(b))) == LoadCases(b)
    ensures b.CaseList? ==> SavedBlob(LoadCases(b)) == b
    ensures !b.CaseList? ==> SavedBlob(LoadCases(b)) == CaseList([])
  {
  }

  /** The four fields of the new-case form, as the inputs hold them. */
  datatype Form = Form(orgNumber: string, department: string, dateEscalated: string,
                       description: string)

  /** `!orgNumber || !department || !dateEscalated` after trimming the org number
      (app.js:205-212). */
  predicate MissingRequiredField(form: Form) {
    Trim(form.orgNumber) == [] || form.department == [] || form.dateEscalated == []
  }

  /** The number of business days from escalation to the due date. */
  const DueBusinessDays: nat := 7

  /** `formatDate(addBusinessDays(dateEscalated, dueIn))`: the text of the day `dueIn`
      business days after the escalation date, empty when that date does not parse. */
  function DueDateText(dateEscalated: string, dueIn: nat): string {
    FormatDate(BusinessDaysLater(ParseDate(dateEscalated), dueIn))
  }

  /** The case the form yields under a given id and due date text, or nothing when a
      required field is empty. */
  function NewCase(form: Form, id: string, dueDate: string): Option<Case> {
    if MissingRequiredField(form) then None
    else
      Some(Case(id, Trim(form.orgNumber), form.department, form.dateEscalated,
                Trim(form.description), dueDate, Open))
  }

  /** The validation and record building of `handleFormSubmit` (app.js:205-224). The id that
      `Date.now()` would supply is a parameter. */
  method CreateCase(form: Form, id: string) returns (r: Option<Case>)
    ensures r == NewCase(form, id, DueDateText(form.dateEscalated, DueBusinessDays))
    ensures r.None? <==> MissingRequiredField(form)
  {
    var orgNumber := Trim(form.orgNumber);
    var department := form.department;
    var dateEscalated := form.dateEscalated;
    var description := Trim(form.description);
    if orgNumber == [] || department == [] || dateEscalated == [] {
      return None;
    }
    var dueDate := AddBusinessDays(dateEscalated, DueBusinessDays);
    r := Some(Case(id, orgNumber, department, dateEscalated, description, FormatDate(dueDate),
                   Open));
  }

  /** A created case is open, has the given id and due date, and carries the escalation date
      and the department exactly as entered and an org number that is not blank and has no
      surrounding whitespace. */
  lemma NewCaseFields(form: Form, id: string, dueDate: string)
    requires !MissingRequiredField(form)
    ensures var c := NewCase(form, id, dueDate).value;
      c.status == Open && c.id == id && c.dueDate == dueDate
      && c.department == form.department && c.dateEscalated == form.dateEscalated
      && c.orgNumber != [] && !IsTrimmable(c.orgNumber[0])
      && !IsTrimmable(c.orgNumber[|c.orgNumber| - 1])
  {
    var r := Trim(form.orgNumber);
    assert r != [] && !IsTrimmable(r[0]) && !IsTrimmable(r[|r| - 1]);
  }

  /** The org number and description are stored trimmed: trimming them again changes
      nothing. */
  lemma NewCaseFieldsTrimmed(form: Form, id: string, dueDate: string)
    requires !MissingRequiredField(form)
    ensures var c := NewCase(form, id, dueDate).value;
      Trim(c.orgNumber) == c.orgNumber && Trim(c.description) == c.description
  {
    TrimIdempotent(form.orgNumber);
    TrimIdempotent(form.description);
  }

  /** The due date text of a case escalated on a day that parses reads back, when the list
      is sorted, as the `dueIn`-th business day after it (for due dates in the years 1000 to
      9999): the day `addBusinessDays` computed, not a different one. */
  lemma DueDayReadsBack(start: Date, dueIn: nat)
    requires start.Day?
    requires 1000 <= CivilOf(NthBusinessDayAfter(start.ordinal, dueIn)).year <= 9999
    ensures ParseDate(FormatDate(BusinessDaysLater(start, dueIn))) ==
      BusinessDaysLater(start, dueIn)
  {
    ParseFormatRoundTrip(NthBusinessDayAfter(start.ordinal, dueIn));
  }

  /** So the sort orders a created case by the day `addBusinessDays` gave it. */
  lemma NewCaseSortsByDueDay(form: Form, id: string, dueIn: nat)
    requires !MissingRequiredField(form) && ParseDate(form.dateEscalated).Day?
    requires 1000 <= CivilOf(NthBusinessDayAfter(ParseDate(form.dateEscalated).ordinal, dueIn)).year
    requires CivilOf(NthBusinessDayAfter(ParseDate(form.dateEscalated).ordinal, dueIn)).year <= 9999
    ensures DueKey(NewCase(form, id, DueDateText(form.dateEscalated, dueIn)).value) ==
      BusinessDaysLater(ParseDate(form.dateEscalated), dueIn)
  {
    var start := ParseDate(form.dateEscalated);
    DueDayReadsBack(start, dueIn);
    var due := DueDateText(form.dateEscalated, dueIn);
    assert NewCase(form, id, due).value.dueDate == due;
  }

  /** A created case is due strictly after the day it was escalated, for any positive
      number of business days (the form uses 7). */
  lemma NewCaseDueAfterEscalation(form: Form, id: string, dueIn: nat)
    requires dueIn > 0
    requires !MissingRequiredField(form) && ParseDate(form.dateEscalated).Day?
    requires 1000 <= CivilOf(NthBusinessDayAfter(ParseDate(form.dateEscalated).ordinal, dueIn)).year
    requires CivilOf(NthBusinessDayAfter(ParseDate(form.dateEscalated).ordinal, dueIn)).year <= 9999
    ensures var c := NewCase(form, id, DueDateText(form.dateEscalated, dueIn)).value;
      DueKey(c).Day? && ParseDate(c.dateEscalated).ordinal < DueKey(c).ordinal
  {
    var due := DueDateText(form.dateEscalated, dueIn);
    NewCaseSortsByDueDay(form, id, dueIn);
    NewCaseFields(form, id, due);
  }

  /** An escalation date that does not parse gives an empty due date, which the sort puts
      before every due date. */
  lemma DueDateTextWithoutDate(dateEscalated: string, dueIn: nat, other: Case)
    requires ParseDate(dateEscalated).Invalid?
    ensures DueDateText(dateEscalated, dueIn) == ""
    ensures KeyLe(ParseDate(DueDateText(dateEscalated, dueIn)), DueKey(other))
  {
    assert !IsIsoDateShape("");
  }

  /** A case is green on the day it is escalated. */
  lemma NewCaseStartsGreen(form: Form, id: string, dueDate: string)
    requires !MissingRequiredField(form)
    ensures var c := NewCase(form, id, dueDate).value;
      StatusOn(c.dateEscalated, ParseDate(c.dateEscalated)).bucket == Green
  {
    var d := ParseDate(form.dateEscalated);
    if d.Day? {
      BusinessAgeSameDay(d.ordinal);
    }
  }

  /** A form escalated on Monday 2024-01-01 gives a case due on Wednesday 2024-01-10
      (`DueDateTextOfExample`). */
  lemma NewCaseExample(id: string)
    ensures NewCase(Form(" 123 ", "Sales", "2024-01-01", ""), id, "2024-01-10") ==
      Some(Case(id, "123", "Sales", "2024-01-01", "", "2024-01-10", Open))
  {
    TrimExample();
  }

  /** The due date text for an escalation on 2024-01-01. */
  lemma DueDateTextOfExample()
    ensures DueDateText("2024-01-01", DueBusinessDays) == "2024-01-10"
  {
    DueDateExample();
    DueDateTextExample();
  }

  /** The org number field " 123 " is stored as "123", and an empty description stays empty. */
  lemma TrimExample()
    ensures Trim(" 123 ") == "123" && Trim("") == ""
  {
    var s := " 123 ";
    assert LeadingSpace(s[4..]) == 1;
    assert LeadingSpace(s[3..]) == 0;
    assert LeadingSpace(s) == 1 by {
      assert s[1..][0] == '1' && !IsTrimmable('1');
    }
    var t := s[1..];
    assert t == "123 ";
    assert TrailingSpace(t) == 1 by {
      assert t[..|t| - 1] == "123";
      assert !IsTrimmable('3');
    }
    assert t[..|t| - 1] == "123";
  }

  /** The browser storage that holds the saved list. */
  class CaseStore {
    var blob: Blob

    constructor (saved: Blob)
      ensures blob == saved
    {
      blob := saved;
    }

    /** The list the storage holds now, as `loadCases` reads it. */
    function Contents(): seq<Case>
      reads this
    {
      LoadCases(blob)
    }

    /** `saveCases(cases)`. */
    method SaveCases(cases: seq<Case>)
      modifies this
      ensures blob == SavedBlob(cases) && Contents() == cases
    {
      blob := SavedBlob(cases);
    }

    /** `updateCaseStatus(id, newStatus)` (app.js:182-187): load, map, save. */
    method UpdateCaseStatus(id: string, newStatus: Status)
      modifies this
      ensures Contents() == WithStatus(old(Contents()), id, newStatus)
      ensures blob == SavedBlob(WithStatus(old(Contents()), id, newStatus))
      ensures UniqueIds(old(Contents())) ==> UniqueIds(Contents())
    {
      var cases := LoadCases(blob);
      var updated := WithStatus(cases, id, newStatus);
      SaveCases(updated);
      if UniqueIds(cases) {
        WithStatusKeepsUniqueIds(cases, id, newStatus);
      }
    }

    /** `deleteCase(id)` (app.js:193-196): load, filter, save. */
    method DeleteCase(id: string)
      modifies this
      ensures Contents() == Without(old(Contents()), id)
      ensures blob == SavedBlob(Without(old(Contents()), id))
      ensures UniqueIds(old(Contents())) ==> UniqueIds(Contents())
      ensures |Contents()| == |old(Contents())| - CountId(old(Contents()), id)
    {
      var cases := LoadCases(blob);
      var filtered := Without(cases, id);
      SaveCases(filtered);
      WithoutRemovesCount(cases, id);
      if UniqueIds(cases) {
        WithoutKeepsUniqueIds(cases, id);
      }
    }

    /** The create path of `handleFormSubmit` (app.js:205-228): with a required field empty
        nothing is saved; otherwise the new case is appended after every saved one. */
    method SubmitCase(form: Form, id: string) returns (created: Option<Case>)
      modifies this
      ensures created == NewCase(form, id, DueDateText(form.dateEscalated, DueBusinessDays))
      ensures created.None? ==> blob == old(blob)
      ensures created.Some? ==> Contents() == old(Contents()) + [created.value]
      ensures created.Some? ==> blob == SavedBlob(old(Contents()) + [created.value])
      ensures created.Some? && UniqueIds(old(Contents())) && id !in Ids(old(Contents())) ==>
        UniqueIds(Contents())
    {
      created := CreateCase(form, id);
      if created.None? {
        return;
      }
      var cases := LoadCases(blob);
      cases := cases + [created.value];
      SaveCases(cases);
      if UniqueIds(old(Contents())) && id !in Ids(old(Contents())) {
        AppendFreshKeepsUniqueIds(old(Contents()), created.value);
      }
    }

    /** The rows `renderCases(filter)` (app.js:81-139) builds from the saved list on the day
        `today`; the storage is left as it was. */
    method RenderCases(filter: string, today: Date) returns (rows: seq<Row>)
      ensures rows == RowsOf(SortBy(Select(filter, Contents()), DueKey), today)
      ensures multiset(Items(rows)) == multiset(Select(filter, Contents()))
    {
      var cases := LoadCases(blob);
      rows := BuildView(filter, cases, today);
    }
  }

  /** Deleting the case just submitted under a new id gives back the list before it. */
  lemma SubmitThenDelete(cases: seq<Case>, form: Form, id: string, due: string)
    requires !MissingRequiredField(form) && id !in Ids(cases)
    ensures Without(cases + [NewCase(form, id, due).value], id) == cases
  {
    DeleteUndoesAppend(cases, NewCase(form, id, due).value);
  }

  /** A submitted case is listed under the filter "open" (and under any filter other than
      "returned"), and not under "returned". */
  lemma SubmittedCaseIsListedOpen(cases: seq<Case>, form: Form, id: string, due: string,
                                  filter: string)
    requires !MissingRequiredField(form)
    ensures var c := NewCase(form, id, due).value;
      (c in Select(filter, cases + [c]) <==> filter != "returned")
  {
    var c := NewCase(form, id, due).value;
    SelectMembers(filter, cases + [c], c);
  }
}
