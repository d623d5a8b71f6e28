/**
 * The client-side form rules of a CRA: the shape of one activity, the
 * month/year/client/consultant/days fields, the rules on the activity list
 * (non-empty, one activity per date, at most 24 hours per date), the status
 * enumeration with its default, the draft variant of the form and the check
 * that a period is not in the future. "Today" is a parameter.
 */
module CraSchema {
  import opened Common
  import opened Text

  // -------------------------------------------------------------- activity

  /** One activity of the form. */
  datatype ActivityForm = ActivityForm(id: Option<string>, date: string, description: string, hours: real)

  /** `^\d{4}-\d{2}-\d{2}$`. */
  predicate DateShape(s: string) {
    && |s| == 10
    && AllDigits(s[..4]) && s[4] == '-'
    && AllDigits(s[5..7]) && s[7] == '-'
    && AllDigits(s[8..])
  }

  /**
   * `!isNaN(new Date(s).getTime())` for a string of the date shape: the ISO
   * date parser accepts a month in 1..12 and a day in 1..31, whatever the
   * month's length (a day past the month's end rolls over into the next month).
   */
  predicate DateParses(s: string)
    requires DateShape(s)
  {
    1 <= DigitsValue(s[5..7]) <= 12 && 1 <= DigitsValue(s[8..]) <= 31
  }

  predicate ValidActivityDate(s: string) {
    |s| >= 1 && DateShape(s) && DateParses(s)
  }

  /** `min(1)`, `min(3)`, `max(500)`: the first is implied by the second. */
  predicate ValidDescription(s: string) {
    |s| >= 1 && |s| >= 3 && |s| <= 500
  }

  /** `hours % 0.25 === 0`: a whole number of quarter hours. */
  predicate QuarterHours(h: real) {
    (4.0 * h).Floor as real == 4.0 * h
  }

  /** `positive()`, `max(24)` and the quarter-hour refinement. */
  predicate ValidHours(h: real) {
    h > 0.0 && h <= 24.0 && QuarterHours(h)
  }

  predicate ValidActivity(a: ActivityForm) {
    ValidActivityDate(a.date) && ValidDescription(a.description) && ValidHours(a.hours)
  }

  /** `k` quarters of an hour. */
  function Quarters(k: int): real {
    k as real / 4.0
  }

  /** A quarter-hour amount is exactly `k` quarters of an hour for some whole number `k`. */
  lemma QuarterHoursMeans(h: real)
    ensures QuarterHours(h) <==> exists k: int :: h == Quarters(k)
  {
    if QuarterHours(h) {
      var k := (4.0 * h).Floor;
      assert h == Quarters(k);
    }
  }

  /** The hours the form accepts are 0.25, 0.5, ..., 24: from 1 to 96 quarters. */
  lemma ValidHoursMeans(h: real)
    ensures ValidHours(h) <==> exists k: int :: 1 <= k <= 96 && h == Quarters(k)
  {
    QuarterHoursMeans(h);
    if ValidHours(h) {
      var k: int :| h == Quarters(k);
      assert 1 <= k <= 96;
    }
  }

  /** A date the form accepts has a month and a day in range and reads back as digits. */
  lemma ValidActivityDateParts(s: string)
    requires ValidActivityDate(s)
    ensures AllDigits(s[..4]) && AllDigits(s[5..7]) && AllDigits(s[8..])
    ensures 1 <= DigitsValue(s[5..7]) <= 12 && 1 <= DigitsValue(s[8..]) <= 31
    ensures s == s[..4] + "-" + s[5..7] + "-" + s[8..]
  {
  }

  // ------------------------------------------------------------ the list

  function DateSet(acts: seq<ActivityForm>): set<string> {
    set i | 0 <= i < |acts| :: acts[i].date
  }

  /** `dates.length === new Set(dates).size`. */
  predicate DistinctDates(acts: seq<ActivityForm>) {
    |DateSet(acts)| == |acts|
  }

  predicate PairwiseDistinctDates(acts: seq<ActivityForm>) {
    forall i, j :: 0 <= i < j < |acts| ==> acts[i].date != acts[j].date
  }

  lemma DateSetSnoc(acts: seq<ActivityForm>)
    requires acts != []
    ensures DateSet(acts) == DateSet(acts[..|acts| - 1]) + {acts[|acts| - 1].date}
  {
    var prefix := acts[..|acts| - 1];
    forall d | d in DateSet(acts) ensures d in DateSet(prefix) + {acts[|acts| - 1].date} {
      var i :| 0 <= i < |acts| && acts[i].date == d;
      if i < |acts| - 1 { assert prefix[i] == acts[i]; }
    }
    forall d | d in DateSet(prefix) ensures d in DateSet(acts) {
      var i :| 0 <= i < |prefix| && prefix[i].date == d;
      assert acts[i] == prefix[i];
    }
  }

  lemma {:induction false} DateSetBound(acts: seq<ActivityForm>)
    ensures |DateSet(acts)| <= |acts|
  {
    if acts != [] {
      DateSetSnoc(acts);
      DateSetBound(acts[..|acts| - 1]);
    }
  }

  /** The size test of the source means: no two activities share a date. */
  lemma {:induction false} DistinctDatesMeans(acts: seq<ActivityForm>)
    ensures DistinctDates(acts) <==> PairwiseDistinctDates(acts)
  {
    if acts != [] {
      var prefix, last := acts[..|acts| - 1], acts[|acts| - 1];
      DateSetSnoc(acts);
      DistinctDatesMeans(prefix);
      DateSetBound(prefix);
      if last.date in DateSet(prefix) {
        RepeatedLastDate(acts);
      } else {
        assert |DateSet(acts)| == |DateSet(prefix)| + 1;
        PairwiseSnoc(acts);
      }
    }
  }

  /** A last date already seen earlier in the list is a repeated date. */
  lemma RepeatedLastDate(acts: seq<ActivityForm>)
    requires acts != [] && acts[|acts| - 1].date in DateSet(acts[..|acts| - 1])
    ensures !PairwiseDistinctDates(acts)
  {
    var prefix := acts[..|acts| - 1];
    var i :| 0 <= i < |prefix| && prefix[i].date == acts[|acts| - 1].date;
    assert acts[i] == prefix[i];
  }

  /** With a new last date, the list has distinct dates exactly when its prefix has. */
  lemma PairwiseSnoc(acts: seq<ActivityForm>)
    requires acts != [] && acts[|acts| - 1].date !in DateSet(acts[..|acts| - 1])
    ensures PairwiseDistinctDates(acts) <==> PairwiseDistinctDates(acts[..|acts| - 1])
  {
    var prefix := acts[..|acts| - 1];
    if PairwiseDistinctDates(acts) {
      forall i, j | 0 <= i < j < |prefix| ensures prefix[i].date != prefix[j].date {
        assert prefix[i] == acts[i] && prefix[j] == acts[j];
      }
    }
    if PairwiseDistinctDates(prefix) {
      forall i, j | 0 <= i < j < |acts| ensures acts[i].date != acts[j].date {
        if j < |acts| - 1 {
          assert prefix[i] == acts[i] && prefix[j] == acts[j];
        } else {
          assert acts[i].date in DateSet(prefix) by { assert prefix[i] == acts[i]; }
        }
      }
    }
  }

  /** The hours booked on `date` across the list, summed in list order. */
  function HoursOn(acts: seq<ActivityForm>, date: string): real {
    if acts == [] then 0.0
    else HoursOn(acts[..|acts| - 1], date) + (if acts[|acts| - 1].date == date then acts[|acts| - 1].hours else 0.0)
  }

  /** No date of the list carries more than 24 hours in total. */
  predicate PerDateWithin24(acts: seq<ActivityForm>) {
    forall d :: d in DateSet(acts) ==> HoursOn(acts, d) <= 24.0
  }

  lemma {:induction false} HoursOnAbsent(acts: seq<ActivityForm>, date: string)
    requires date !in DateSet(acts)
    ensures HoursOn(acts, date) == 0.0
  {
    if acts != [] {
      DateSetSnoc(acts);
      HoursOnAbsent(acts[..|acts| - 1], date);
    }
  }

  /**
   * The per-date refinement: a `Map` from date to hours filled in one pass
   * (`get(date) || 0` plus the activity's hours), then every value compared with 24.
   */
  method PerDateTotalsOk(acts: seq<ActivityForm>) returns (ok: bool)
    ensures ok == PerDateWithin24(acts)
  {
    var hoursByDate := HoursByDate(acts);
    // Array.from(hoursByDate.values()).every((hours) => hours <= 24)
    var pending := hoursByDate.Keys;
    while pending != {}
      invariant pending <= hoursByDate.Keys
      invariant forall d :: d in hoursByDate.Keys - pending ==> hoursByDate[d] <= 24.0
      decreases |pending|
    {
      var d :| d in pending;
      if hoursByDate[d] > 24.0 {
        return false;
      }
      pending := pending - {d};
    }
    ok := true;
  }

  /** The `Map` pass of the per-date refinement: each date booked, with its summed hours. */
  method HoursByDate(acts: seq<ActivityForm>) returns (hoursByDate: map<string, real>)
    ensures hoursByDate.Keys == DateSet(acts)
    ensures forall d :: d in hoursByDate ==> hoursByDate[d] == HoursOn(acts, d)
  {
    hoursByDate := map[];
    var i := 0;
    while i < |acts|
      invariant 0 <= i <= |acts|
      invariant hoursByDate.Keys == DateSet(acts[..i])
      invariant forall d :: d in hoursByDate ==> hoursByDate[d] == HoursOn(acts[..i], d)
    {
      var date := acts[i].date;
      var current := if date in hoursByDate then hoursByDate[date] else 0.0;
      if date !in hoursByDate {
        HoursOnAbsent(acts[..i], date);
      }
      ghost var before := hoursByDate;
      hoursByDate := hoursByDate[date := current + acts[i].hours];
      ghost var prefix, next := acts[..i], acts[..i + 1];
      assert next[..i] == prefix && next[i] == acts[i];
      DateSetSnoc(next);
      forall d | d in hoursByDate
        ensures hoursByDate[d] == HoursOn(next, d)
      {
        assert HoursOn(next, d) == HoursOn(prefix, d) + (if date == d then acts[i].hours else 0.0);
        if d != date {
          assert hoursByDate[d] == before[d];
        }
      }
      i := i + 1;
    }
    assert acts[..i] == acts;
  }

  /** With distinct dates, the hours booked on an activity's date are that activity's own. */
  lemma {:induction false} HoursOnDistinct(acts: seq<ActivityForm>, i: nat)
    requires PairwiseDistinctDates(acts) && i < |acts|
    ensures HoursOn(acts, acts[i].date) == acts[i].hours
  {
    var prefix, last := acts[..|acts| - 1], acts[|acts| - 1];
    if i == |acts| - 1 {
      forall j | 0 <= j < |prefix| ensures prefix[j].date != last.date {
        assert prefix[j] == acts[j];
      }
      HoursOnAbsent(prefix, last.date);
    } else {
      assert prefix[i] == acts[i];
      assert PairwiseDistinctDates(prefix) by {
        forall p, q | 0 <= p < q < |prefix| ensures prefix[p].date != prefix[q].date {
          assert prefix[p] == acts[p] && prefix[q] == acts[q];
        }
      }
      HoursOnDistinct(prefix, i);
    }
  }

  /**
   * The per-date refinement never rejects a list that passed the others:
   * with distinct dates each date carries one activity, whose hours are at
   * most 24 already.
   */
  lemma PerDateCheckRedundant(acts: seq<ActivityForm>)
    requires DistinctDates(acts)
    requires forall i :: 0 <= i < |acts| ==> acts[i].hours <= 24.0
    ensures PerDateWithin24(acts)
  {
    DistinctDatesMeans(acts);
    forall d | d in DateSet(acts) ensures HoursOn(acts, d) <= 24.0 {
      var i :| 0 <= i < |acts| && acts[i].date == d;
      HoursOnDistinct(acts, i);
    }
  }

  lemma ExampleDateValid()
    ensures ValidActivityDate("2024-03-01")
  {
    var s := "2024-03-01";
    assert s[5..7] == "03" && s[8..] == "01";
    assert DigitsValue("03") == 3 by {
      assert "03"[..1] == "0" && "0"[..0] == [];
    }
    assert DigitsValue("01") == 1 by {
      assert "01"[..1] == "0" && "0"[..0] == [];
    }
  }

  /** Without the distinct-date rule the per-date check does bite: two 13-hour activities on one day. */
  lemma PerDateCheckNeededWithoutDistinctDates()
    ensures var a := ActivityForm(None, "2024-03-01", "Audit", 13.0);
      ValidActivity(a) && !PerDateWithin24([a, a]) && !DistinctDates([a, a])
  {
    var a := ActivityForm(None, "2024-03-01", "Audit", 13.0);
    ExampleDateValid();
    assert [a, a][..1] == [a];
    assert [a][..0] == [];
    assert HoursOn([a], a.date) == 13.0;
    assert HoursOn([a, a], a.date) == 26.0;
    assert a.date in DateSet([a, a]);
    assert DateSet([a, a]) == {a.date};
  }

  predicate ValidActivities(acts: seq<ActivityForm>) {
    && |acts| >= 1
    && (forall i :: 0 <= i < |acts| ==> ValidActivity(acts[i]))
    && DistinctDates(acts)
    && PerDateWithin24(acts)
  }

  // ------------------------------------------------------------- the form

  /** `^(0?[1-9]|1[0-2])$`. */
  predicate MonthShape(s: string) {
    || (|s| == 1 && '1' <= s[0] <= '9')
    || (|s| == 2 && s[0] == '0' && '1' <= s[1] <= '9')
    || (|s| == 2 && s[0] == '1' && '0' <= s[1] <= '2')
  }

  /** The month pattern accepts exactly the one- or two-digit spellings of 1 to 12. */
  lemma MonthShapeMeans(s: string)
    ensures MonthShape(s) <==> (|s| == 1 || |s| == 2) && AllDigits(s) && 1 <= DigitsValue(s) <= 12
  {
    if |s| == 2 && AllDigits(s) {
      assert s[..1] == [s[0]];
      assert DigitsValue([s[0]]) == DigitValue(s[0]) by {
        assert [s[0]][..0] == [];
      }
    }
    if |s| == 1 && AllDigits(s) {
      assert s[..0] == [];
    }
  }

  /** `^\d{4}$`. */
  predicate YearShape(s: string) {
    |s| == 4 && AllDigits(s)
  }

  /** The year refinement: `parseInt(year)` within five years back and one ahead. */
  predicate YearInRange(s: string, currentYear: int) {
    var y := ParseInt(s);
    y.Some? && currentYear - 5 <= y.value <= currentYear + 1
  }

  predicate ValidYear(s: string, currentYear: int) {
    |s| >= 1 && YearShape(s) && YearInRange(s, currentYear)
  }

  /** A valid year reads as its four digits and lies in the window around the current year. */
  lemma ValidYearMeans(s: string, currentYear: int)
    requires YearShape(s)
    ensures ValidYear(s, currentYear) <==> currentYear - 5 <= DigitsValue(s) <= currentYear + 1
  {
    ParseIntOfDigits(s);
  }

  /** `min(1)`, `min(2)`, `max(100)` on client and consultant. */
  predicate ValidName(s: string) {
    |s| >= 1 && |s| >= 2 && |s| <= 100
  }

  /** `int()`, `positive()`, `min(1)`, `max(31)`. */
  predicate ValidDays(d: real) {
    d.Floor as real == d && d > 0.0 && d >= 1.0 && d <= 31.0
  }

  lemma ValidDaysMeans(d: real)
    ensures ValidDays(d) <==> exists n: int {:trigger n as real} :: 1 <= n <= 31 && d == n as real
  {
    if ValidDays(d) {
      assert d == d.Floor as real;
    }
  }

  datatype Status = Draft | Completed | Submitted | Approved | Rejected

  function StatusName(st: Status): string {
    match st
    case Draft => "draft"
    case Completed => "completed"
    case Submitted => "submitted"
    case Approved => "approved"
    case Rejected => "rejected"
  }

  /** `enum([...]).optional().default('draft')`: absent gives draft, unknown text is refused. */
  function ParseStatus(s: Option<string>): (r: Option<Status>)
    ensures s.None? ==> r == Some(Draft)
  {
    match s
    case None => Some(Draft)
    case Some(text) =>
      if text == "draft" then Some(Draft)
      else if text == "completed" then Some(Completed)
      else if text == "submitted" then Some(Submitted)
      else if text == "approved" then Some(Approved)
      else if text == "rejected" then Some(Rejected)
      else None
  }

  /** Every status reads back from its name, and only the five names are accepted. */
  lemma ParseStatusNames(st: Status, s: string)
    ensures ParseStatus(Some(StatusName(st))) == Some(st)
    ensures ParseStatus(Some(s)).Some? ==> StatusName(ParseStatus(Some(s)).value) == s
  {
  }

  /** The form as it is filled in; `activities` and `status` may be missing. */
  datatype CraForm = CraForm(
    month: string,
    year: string,
    client: string,
    consultant: string,
    days: real,
    activities: Option<seq<ActivityForm>>,
    status: Option<string>)

  /** Every field rule but the one on the activity list. */
  predicate ValidFields(f: CraForm, currentYear: int) {
    && |f.month| >= 1 && MonthShape(f.month)
    && ValidYear(f.year, currentYear)
    && ValidName(f.client)
    && ValidName(f.consultant)
    && ValidDays(f.days)
    && ParseStatus(f.status).Some?
  }

  /** The submit schema: the activity list is required and checked as a whole. */
  predicate ValidForm(f: CraForm, currentYear: int) {
    ValidFields(f, currentYear) && f.activities.Some? && ValidActivities(f.activities.value)
  }

  /** The draft schema: the list may be missing, and the list rules are dropped; each activity is still checked. */
  predicate ValidDraft(f: CraForm, currentYear: int) {
    && ValidFields(f, currentYear)
    && (f.activities.Some? ==> forall i :: 0 <= i < |f.activities.value| ==> ValidActivity(f.activities.value[i]))
  }

  /** Whatever can be submitted can be saved as a draft. */
  lemma FormIsDraft(f: CraForm, currentYear: int)
    requires ValidForm(f, currentYear)
    ensures ValidDraft(f, currentYear)
  {
  }

  /** A draft may omit the activities, or repeat a date, where the full form may not. */
  lemma DraftIsLaxer(f: CraForm, currentYear: int, a: ActivityForm)
    requires ValidFields(f, currentYear) && ValidActivity(a)
    ensures ValidDraft(f.(activities := None), currentYear) && !ValidForm(f.(activities := None), currentYear)
    ensures ValidDraft(f.(activities := Some([a, a])), currentYear) && !ValidForm(f.(activities := Some([a, a])), currentYear)
  {
    var two := [a, a];
    DistinctDatesMeans(two);
    assert two[0].date == two[1].date;
    assert forall i :: 0 <= i < |two| ==> ValidActivity(two[i]);
  }

  // ---------------------------------------------------------------- period

  /** The first and last month (year * 12 + month index) a JavaScript `Date` can hold. */
  const FirstMonth := -271821 * 12 + 4
  const LastMonth := 275760 * 12 + 8

  /**
   * `new Date(y, m)` reduced to the month it denotes: a year 0..99 means
   * 1900..1999, a month index outside 0..11 carries into the year, and a
   * month outside the representable range gives an invalid date (`None`).
   */
  function MonthStart(y: int, m: int): (r: Option<int>)
    ensures r.Some? ==> FirstMonth <= r.value <= LastMonth
  {
    var year := if 0 <= y <= 99 then 1900 + y else y;
    var index := year * 12 + m;
    if FirstMonth <= index <= LastMonth then Some(index) else None
  }

  /**
   * `validateCRAPeriod`: the first day of the chosen month is not after the
   * first day of the current month; a NaN year or month, or an invalid date,
   * makes the comparison false. Today is given as a year and month index.
   */
  function ValidateCraPeriod(month: string, year: string, todayYear: int, todayMonth: int): bool {
    var y, m := ParseInt(year), ParseInt(month);
    y.Some? && m.Some? && MonthNotAfter(y.value, m.value - 1, todayYear, todayMonth)
  }

  /** `new Date(y, m) <= new Date(ty, tm)`, false when either date is invalid. */
  predicate MonthNotAfter(y: int, m: int, ty: int, tm: int) {
    var selected, current := MonthStart(y, m), MonthStart(ty, tm);
    selected.Some? && current.Some? && selected.value <= current.value
  }

  /** Between the years 100 and 9999 the comparison is the order of (year, month). */
  lemma MonthNotAfterMeans(y: int, m: int, ty: int, tm: int)
    requires 100 <= y <= 9999 && 0 <= m <= 11
    requires 100 <= ty <= 9999 && 0 <= tm <= 11
    ensures MonthNotAfter(y, m, ty, tm) <==> y < ty || (y == ty && m <= tm)
  {
    MonthStartOfPresentYear(y, m);
    MonthStartOfPresentYear(ty, tm);
  }

  /**
   * For a month and a year the form accepts (years from 1000) and a present
   * date, the period is accepted exactly when it is the current month or an
   * earlier one.
   */
  lemma ValidateCraPeriodMeans(month: string, year: string, todayYear: int, todayMonth: int)
    requires MonthShape(month) && YearShape(year) && DigitsValue(year) >= 1000
    requires 1000 <= todayYear <= 9999 && 0 <= todayMonth <= 11
    ensures AllDigits(month) && 1 <= DigitsValue(month) <= 12
    ensures ValidateCraPeriod(month, year, todayYear, todayMonth) <==>
      DigitsValue(year) < todayYear || (DigitsValue(year) == todayYear && DigitsValue(month) - 1 <= todayMonth)
  {
    MonthShapeMeans(month);
    YearBelow10000(year);
    PeriodOfDigits(month, year, todayYear, todayMonth);
  }

  lemma YearBelow10000(year: string)
    requires YearShape(year)
    ensures DigitsValue(year) <= 9999
  {
    DigitsValueBound(year);
    assert Pow10(4) == 10000;
  }

  /** The period check on digit strings, with the years and months as numbers. */
  lemma PeriodOfDigits(month: string, year: string, todayYear: int, todayMonth: int)
    requires AllDigits(month) && month != [] && 1 <= DigitsValue(month) <= 12
    requires AllDigits(year) && year != [] && 1000 <= DigitsValue(year) <= 9999
    requires 1000 <= todayYear <= 9999 && 0 <= todayMonth <= 11
    ensures ValidateCraPeriod(month, year, todayYear, todayMonth) <==>
      DigitsValue(year) < todayYear || (DigitsValue(year) == todayYear && DigitsValue(month) - 1 <= todayMonth)
  {
    var y, m := DigitsValue(year), DigitsValue(month);
    ParseIntOfDigits(month);
    ParseIntOfDigits(year);
    ValidateCraPeriodOfParsed(month, year, todayYear, todayMonth, y, m);
    MonthNotAfterMeans(y, m - 1, todayYear, todayMonth);
  }

  /** Between the years 100 and 9999 a month is simply counted from year 0. */
  lemma MonthStartOfPresentYear(y: int, m: int)
    requires 100 <= y <= 9999 && 0 <= m <= 11
    ensures MonthStart(y, m) == Some(y * 12 + m)
  {
  }

  lemma ValidateCraPeriodOfParsed(month: string, year: string, todayYear: int, todayMonth: int, y: int, m: int)
    requires ParseInt(year) == Some(y) && ParseInt(month) == Some(m)
    ensures ValidateCraPeriod(month, year, todayYear, todayMonth) == MonthNotAfter(y, m - 1, todayYear, todayMonth)
  {
  }

  /** The submit schema with the period refinement on top. */
  predicate ValidFormWithPeriod(f: CraForm, todayYear: int, todayMonth: int) {
    ValidForm(f, todayYear) && ValidateCraPeriod(f.month, f.year, todayYear, todayMonth)
  }

  /** With the period check the year window shrinks: next year is no longer accepted. */
  lemma PeriodBoundsYear(f: CraForm, todayYear: int, todayMonth: int)
    requires ValidFormWithPeriod(f, todayYear, todayMonth)
    requires 1005 <= todayYear <= 9999 && 0 <= todayMonth <= 11
    ensures todayYear - 5 <= DigitsValue(f.year) <= todayYear
  {
    ValidYearMeans(f.year, todayYear);
    ValidateCraPeriodMeans(f.month, f.year, todayYear, todayMonth);
  }
}
