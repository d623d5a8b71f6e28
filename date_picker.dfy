/**
 * The date picker's text form of a calendar date, `YYYY-MM-DD`, and today's
 * date in that form; the current date is a parameter.
 */
module DatePicker {
  import opened Text
  import CraSchema

  /** What `getFullYear`, `getMonth` and `getDate` report: a month index 0..11 and a day 1..31. */
  datatype CalendarDate = CalendarDate(year: int, monthIndex: int, day: int)

  predicate ValidCalendarDate(d: CalendarDate) {
    0 <= d.monthIndex <= 11 && 1 <= d.day <= 31
  }

  /** `String(n).padStart(2, '0')`. */
  function TwoDigits(n: nat): string {
    PadStart(NatToString(n), 2, '0')
  }

  /** A number from 0 to 99 takes exactly two digits, which read back as the number. */
  lemma TwoDigitsOf(n: nat)
    requires n < 100
    ensures |TwoDigits(n)| == 2 && AllDigits(TwoDigits(n)) && DigitsValue(TwoDigits(n)) == n
    ensures '-' !in TwoDigits(n)
  {
    NatToStringLength(n);
    if n < 10 {
      assert TwoDigits(n) == "0" + NatToString(n);
      LeadingZero(NatToString(n));
    } else {
      assert TwoDigits(n) == NatToString(n);
    }
  }

  /** `formatDate`: the year, then the month number and the day padded to two digits, joined by dashes. */
  function FormatDate(d: CalendarDate): string
    requires ValidCalendarDate(d)
  {
    IntToString(d.year) + "-" + TwoDigits(d.monthIndex + 1) + "-" + TwoDigits(d.day)
  }

  /** `getToday`: today's date in that form. */
  function GetToday(today: CalendarDate): (r: string)
    requires ValidCalendarDate(today)
    ensures 1000 <= today.year <= 9999 ==> CraSchema.ValidActivityDate(r)
  {
    if 1000 <= today.year <= 9999 then
      FormatDateShape(today);
      FormatDate(today)
    else
      FormatDate(today)
  }

  /**
   * For a four-digit year the text is ten characters long, has the shape
   * `\d{4}-\d{2}-\d{2}` the activity form requires, and is accepted as an
   * activity date.
   */
  lemma FormatDateShape(d: CalendarDate)
    requires ValidCalendarDate(d) && 1000 <= d.year <= 9999
    ensures |FormatDate(d)| == 10
    ensures CraSchema.DateShape(FormatDate(d)) && CraSchema.ValidActivityDate(FormatDate(d))
  {
    NatToStringLength(d.year);
    TwoDigitsOf(d.monthIndex + 1);
    TwoDigitsOf(d.day);
    JoinedShape(NatToString(d.year), TwoDigits(d.monthIndex + 1), TwoDigits(d.day));
  }

  /** Four digits, a dash, two digits, a dash and two digits make a date of the activity form's shape. */
  lemma JoinedShape(y: string, m: string, dd: string)
    requires |y| == 4 && |m| == 2 && |dd| == 2
    requires AllDigits(y) && AllDigits(m) && AllDigits(dd)
    ensures var s := y + "-" + m + "-" + dd;
      && CraSchema.DateShape(s)
      && s[5..7] == m && s[8..] == dd
  {
    var s := y + "-" + m + "-" + dd;
    assert s[..4] == y;
    assert s[5..7] == m;
    assert s[8..] == dd;
  }

  /**
   * Splitting the text at the dashes gives three parts that read back as the
   * year, the month number (index plus one) and the day.
   */
  lemma FormatDateRoundTrip(d: CalendarDate)
    requires ValidCalendarDate(d) && d.year >= 0
    ensures var parts := Split(FormatDate(d), '-');
      && |parts| == 3
      && AllDigits(parts[0]) && AllDigits(parts[1]) && AllDigits(parts[2])
      && DigitsValue(parts[0]) == d.year
      && DigitsValue(parts[1]) == d.monthIndex + 1
      && DigitsValue(parts[2]) == d.day
  {
    var y, m, dd := NatToString(d.year), TwoDigits(d.monthIndex + 1), TwoDigits(d.day);
    TwoDigitsOf(d.monthIndex + 1);
    TwoDigitsOf(d.day);
    assert '-' !in y by {
      DigitsHaveNoDash(y);
    }
    assert Split(FormatDate(d), '-') == [y, m, dd] by {
      assert FormatDate(d) == y + "-" + m + "-" + dd;
      SplitDashes(y, m, dd);
    }
  }

  lemma DigitsHaveNoDash(s: string)
    requires AllDigits(s)
    ensures '-' !in s
  {
  }

  /** Three dash-free pieces joined by dashes split back into those pieces. */
  lemma SplitDashes(a: string, b: string, c: string)
    requires '-' !in a && '-' !in b && '-' !in c
    ensures Split(a + "-" + b + "-" + c, '-') == [a, b, c]
  {
    assert a + "-" + b + "-" + c == a + ['-'] + (b + ['-'] + c);
    SplitAtFirstSeparator(a, '-', b + ['-'] + c);
    SplitAtFirstSeparator(b, '-', c);
    SplitWithoutSeparator(c, '-');
  }
}
