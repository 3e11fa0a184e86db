/**
 * The cell formatters of the PDF and spreadsheet reports (ReportUtils): a text, a
 * date and an age, each with "N/A" standing in for a missing value.
 */
module ReportUtils {
  import opened Wrappers
  import opened Text
  import opened Calendar

  const DefaultValue := "N/A"

  /** formatString: the value itself, unless it is null or has nothing above U+0020. */
  function FormatString(value: Option<string>): (r: string)
    ensures r != ""
    ensures value.None? ==> r == DefaultValue
    ensures value.Some? && (forall i :: 0 <= i < |value.value| ==> value.value[i] <= ' ') ==> r == DefaultValue
    ensures value.Some? && (exists i :: 0 <= i < |value.value| && value.value[i] > ' ') ==> r == value.value
  {
    if value.Some? && Trim(value.value, JavaTrimmable) != [] then value.value else DefaultValue
  }

  /** The year field of the pattern "yyyy": the year of the era, at least four digits, '+' beyond 9999. */
  function YearText(year: int): (r: string)
    ensures var yearOfEra := if year >= 1 then year else 1 - year;
      && (yearOfEra <= 9999 ==> |r| == 4 && AllDigits(r) && DigitsValue(r) == yearOfEra)
      && (yearOfEra > 9999 ==> |r| >= 2 && r[0] == '+' && IsDecimalOf(r[1..], yearOfEra))
  {
    var yearOfEra := if year >= 1 then year else 1 - year;
    if yearOfEra > 9999 then
      assert ("+" + NatToString(yearOfEra))[1..] == NatToString(yearOfEra);
      "+" + NatToString(yearOfEra)
    else
      SmallPowers();
      PadNumeralWidth(yearOfEra, 4);
      PadNumeral(yearOfEra, 4)
  }

  /**
   * formatDate: "N/A" for null, otherwise "yyyy-MM-dd": the year field, then the month and
   * the day as two digits each, joined by '-'. For the years 1 to 9999 this is the complete
   * calendar date of section 4.1.2.2 of ISO 8601:2004, which reads back as the same date.
   */
  function FormatDate(date: Option<Date>): (r: string)
    requires date.Some? ==> ValidDate(date.value)
    ensures r != ""
    ensures date.None? ==> r == DefaultValue
    ensures date.Some? ==> var d := date.value; var y := YearText(d.year);
      && |r| == |y| + 6 && r[..|y|] == y && r[|y|] == '-' && r[|y| + 3] == '-'
      && AllDigits(r[|y| + 1..|y| + 3]) && DigitsValue(r[|y| + 1..|y| + 3]) == d.month
      && AllDigits(r[|y| + 4..]) && DigitsValue(r[|y| + 4..]) == d.day
    ensures date.Some? && 1 <= date.value.year <= 9999 ==> r == IsoText(date.value)
    ensures date.Some? && 1 <= date.value.year <= 9999 ==>
      |r| == 10 && r[4] == '-' && r[7] == '-' && ParseIsoDate(r) == Some(date.value)
  {
    match date
    case None => DefaultValue
    case Some(d) =>
      var y, m, dd := YearText(d.year), PadNumeral(d.month, 2), PadNumeral(d.day, 2);
      MonthDayWidths(d);
      JoinFields(y, m, dd);
      assert 1 <= d.year <= 9999 ==> y == PadNumeral(d.year, 4) by {
        if 1 <= d.year <= 9999 { FourDigitYear(d.year); }
      }
      y + "-" + m + "-" + dd
  }

  /** Within 1 to 9999 the year field is the year itself, padded to four digits. */
  lemma FourDigitYear(year: int)
    requires 1 <= year <= 9999
    ensures YearText(year) == PadNumeral(year, 4)
  {
  }

  /** Where the fields sit in "year-MM-dd" for a year field of any width. */
  lemma JoinFields(y: string, m: string, dd: string)
    requires |m| == 2 && |dd| == 2
    ensures var r := y + "-" + m + "-" + dd;
      && |r| == |y| + 6 && r[..|y|] == y && r[|y|] == '-' && r[|y| + 3] == '-'
      && r[|y| + 1..|y| + 3] == m && r[|y| + 4..] == dd
  {
  }

  /** formatAge: a known age is printed whatever the date of birth. */
  function FormatAge(age: Option<int>, dob: Option<Date>, today: Date): (r: string)
    ensures r != ""
    ensures age.Some? ==> IsDecimalOf(r, age.value)
    ensures age.None? && dob.Some? ==> IsDecimalOf(r, WholeYears(dob.value, today))
    ensures age.None? && dob.None? ==> r == DefaultValue
  {
    if age.Some? then IntToString(age.value)
    else if dob.Some? then IntToString(WholeYears(dob.value, today))
    else DefaultValue
  }

  /** Year 0 of a twelve-digit number prints as year 0001: "yyyy" is the year of the era. */
  lemma YearZeroPrintsAsOne()
    ensures FormatDate(Some(Date(0, 1, 10))) == "0001-01-10"
  {
    assert NatToString(1) == "1" && NatToString(10) == "10";
    assert ZeroPad("1", 4) == "0001" && ZeroPad("1", 2) == "01";
  }
}
