/**
 * The server-side identity-number decoder and its upsert (NicRecordService):
 * normalise the number (trim, upper-case), accept 12 digits or 9 digits and V/X,
 * read the year (legacy suffixes up to 29 mean the 2000s), remove the female
 * offset from the day code, build the date from the ordinal day, derive the
 * gender and the age, and store the result under the normalised number.
 */
module NicRecordService {
  import opened Wrappers
  import opened Text
  import opened Calendar
  import opened Repository

  /** The two kinds of exception the decoder raises, with their messages. */
  datatype Exception = IllegalArgument(message: string) | DateTimeError(message: string)

  const EmptyError := "NIC number is empty"
  const Male := "MALE"
  const Female := "FEMALE"

  /** Java's string conversion of a possibly-null string. */
  function JavaText(s: Option<string>): string { if s.Some? then s.value else "null" }

  function FormatError(nicNumber: Option<string>): string { "Invalid NIC format: " + JavaText(nicNumber) }

  function DayOfYearError(nic: string): string { "Invalid day-of-year in NIC: " + nic }

  function LeapError(year: int): string
  {
    "Invalid date 'DayOfYear 366' as '" + IntToString(year) + "' is not a leap year"
  }

  function GenderError(nic: string): string { "Invalid day code for gender in NIC: " + nic }

  /** The stored entity of a number: its date of birth, gender and age. */
  datatype NicRow = NicRow(dob: Date, gender: string, age: int)

  /** The record returned to the caller. */
  datatype NicRecord = NicRecord(nicNumber: string, dob: Date, age: int, gender: string)

  /**
   * normalizeNic: null becomes the empty string; otherwise the number loses every
   * leading and trailing character up to U+0020 and its letters are upper-cased.
   */
  function NormalizeNic(nicNumber: Option<string>): (r: string)
    ensures nicNumber.None? ==> r == ""
    ensures nicNumber.Some? ==> r == ToUpper(Trim(nicNumber.value, JavaTrimmable))
    ensures nicNumber.Some? ==> |r| <= |nicNumber.value|
    ensures r != [] ==> !JavaTrimmable(r[0]) && !JavaTrimmable(r[|r| - 1])
    ensures forall i :: 0 <= i < |r| ==> !('a' <= r[i] <= 'z')
  {
    if nicNumber.None? then "" else ToUpper(Trim(nicNumber.value, JavaTrimmable))
  }

  /** \d{12} */
  predicate IsValidNewNic(nic: string) { |nic| == 12 && AllDigits(nic) }

  /** \d{9}[VX] */
  predicate IsValidOldNic(nic: string) { |nic| == 10 && AllDigits(nic[..9]) && nic[9] in "VX" }

  /**
   * Upper-casing keeps the digits and turns exactly 'v', 'V', 'x' and 'X' into the two
   * letters of the old pattern: the upper-cased number has a valid shape exactly when the
   * number itself has it with either letter case.
   */
  lemma UpperShapes(s: string)
    ensures IsValidNewNic(ToUpper(s)) <==> |s| == 12 && AllDigits(s)
    ensures IsValidOldNic(ToUpper(s)) <==> |s| == 10 && AllDigits(s[..9]) && s[9] in "vVxX"
  {
    var u := ToUpper(s);
    assert forall i :: 0 <= i < |s| ==> (IsDigit(u[i]) <==> IsDigit(s[i]));
    if |s| == 10 {
      assert u[9] in "VX" <==> s[9] in "vVxX";
    }
  }

  /** The birth year: four digits verbatim, or a two-digit suffix read as 2000-2029 or 1930-1999. */
  function BirthYear(nic: string): (y: int)
    requires IsValidNewNic(nic) || IsValidOldNic(nic)
    ensures IsValidNewNic(nic) ==> 0 <= y <= 9999
    ensures IsValidOldNic(nic) ==> 1930 <= y <= 2029
  {
    DigitFields(nic);
    if IsValidNewNic(nic) then DigitsValue(nic[..4])
    else
      var suffix := DigitsValue(nic[..2]);
      if suffix <= 29 then 2000 + suffix else 1900 + suffix
  }

  /** The raw 3-digit day code. */
  function DayCode(nic: string): (code: nat)
    requires IsValidNewNic(nic) || IsValidOldNic(nic)
    ensures code <= 999
  {
    DigitFields(nic);
    if IsValidNewNic(nic) then DigitsValue(nic[4..7]) else DigitsValue(nic[2..5])
  }

  /** LocalDate.ofYearDay: a day outside the year is a DateTimeException. */
  function OfYearDay(year: int, day: int): (r: Result<Date, Exception>)
    requires 1 <= day <= 366
    ensures r.Success? <==> day <= YearLength(year)
    ensures r.Success? ==> ValidDate(r.value) && r.value.year == year && DayOfYear(r.value) == day
    ensures r.Failure? ==> r.error.DateTimeError?
  {
    if day == 366 && !IsLeap(year) then Failure(DateTimeError(LeapError(year)))
    else Success(OrdinalToDate(year, day))
  }

  /** extractDobFromNic */
  function ExtractDob(nic: string): (r: Result<Date, Exception>)
    ensures r.Success? <==>
      && (IsValidNewNic(nic) || IsValidOldNic(nic))
      && var code := DayCode(nic); var day := if code > 500 then code - 500 else code;
         1 <= day <= YearLength(BirthYear(nic))
    ensures r.Success? ==>
      && ValidDate(r.value) && r.value.year == BirthYear(nic)
      && DayOfYear(r.value) == (if DayCode(nic) > 500 then DayCode(nic) - 500 else DayCode(nic))
  {
    if !IsValidNewNic(nic) && !IsValidOldNic(nic) then Failure(IllegalArgument(FormatError(Some(nic))))
    else
      var day := if DayCode(nic) > 500 then DayCode(nic) - 500 else DayCode(nic);
      if day < 1 || day > 366 then Failure(IllegalArgument(DayOfYearError(nic)))
      else OfYearDay(BirthYear(nic), day)
  }

  /** extractGenderFromNic, called only on a number of an accepted shape. */
  function ExtractGender(nic: string): (r: Result<string, Exception>)
    requires IsValidNewNic(nic) || IsValidOldNic(nic)
    ensures r.Success? <==> 1 <= DayCode(nic) <= 366 || 501 <= DayCode(nic) <= 866
    ensures r.Success? ==> r.value == if DayCode(nic) > 500 then Female else Male
  {
    var code := DayCode(nic);
    if 1 <= code <= 366 then Success(Male)
    else if 501 <= code <= 866 then Success(Female)
    else Failure(IllegalArgument(GenderError(nic)))
  }

  /** calculateAgeFromDob, with the current date passed in: `Period.between(dob, today).getYears()`. */
  function CalculateAgeFromDob(dob: Date, today: Date): (r: int)
    ensures ValidDate(dob) && ValidDate(today) ==> r == PeriodYears(dob, today)
  {
    WholeYears(dob, today)
  }

  /** The decoding part of validateByNic: the record it saves and returns, or what it throws. */
  function Decode(nicNumber: Option<string>, today: Date): (r: Result<NicRecord, Exception>)
    ensures r.Success? ==>
      && r.value.nicNumber == NormalizeNic(nicNumber)
      && (IsValidNewNic(r.value.nicNumber) || IsValidOldNic(r.value.nicNumber))
      && ValidDate(r.value.dob) && r.value.dob.year == BirthYear(r.value.nicNumber)
      && r.value.age == WholeYears(r.value.dob, today)
      && (r.value.gender == Male || r.value.gender == Female)
  {
    var nic := NormalizeNic(nicNumber);
    if JavaIsBlank(nic) then Failure(IllegalArgument(EmptyError))
    else if !IsValidOldNic(nic) && !IsValidNewNic(nic) then Failure(IllegalArgument(FormatError(nicNumber)))
    else
      match ExtractDob(nic)
      case Failure(e) => Failure(e)
      case Success(dob) =>
        match ExtractGender(nic)
        case Failure(e) => Failure(e)
        case Success(gender) => Success(NicRecord(nic, dob, CalculateAgeFromDob(dob, today), gender))
  }

  class NicRecordService {
    const repository: Table<NicRow>

    ghost predicate Valid()
      reads this, repository
    {
      repository.Valid()
    }

    constructor (repository: Table<NicRow>)
      requires repository.Valid()
      ensures Valid() && this.repository == repository
    {
      this.repository := repository;
    }

    /**
     * validateByNic: decode the number and upsert its row under the normalised number;
     * a failed decode leaves the table as it was.
     */
    method ValidateByNic(nicNumber: Option<string>, today: Date) returns (r: Result<NicRecord, Exception>)
      requires Valid()
      modifies repository
      ensures Valid()
      ensures r == Decode(nicNumber, today)
      ensures r.Failure? ==> repository.rows == old(repository.rows) && repository.order == old(repository.order)
      ensures r.Success? ==>
        && r.value.nicNumber == NormalizeNic(nicNumber)
        && repository.rows == old(repository.rows)[r.value.nicNumber := NicRow(r.value.dob, r.value.gender, r.value.age)]
        && repository.order == if r.value.nicNumber in old(repository.rows) then old(repository.order)
                               else old(repository.order) + [r.value.nicNumber]
    {
      r := Decode(nicNumber, today);
      if r.Success? {
        repository.Save(r.value.nicNumber, NicRow(r.value.dob, r.value.gender, r.value.age));
      }
    }

    /** getAll: every stored record once, in listing order. */
    function GetAll(): (r: seq<NicRecord>)
      reads this, repository
      requires Valid()
      ensures |r| == |repository.rows| == |repository.order|
      ensures forall i :: 0 <= i < |r| ==>
        var nic := repository.order[i];
        nic in repository.rows && r[i] == NicRecord(nic, repository.rows[nic].dob, repository.rows[nic].age, repository.rows[nic].gender)
    {
      var all := repository.FindAll();
      seq(|all|, i requires 0 <= i < |all| => NicRecord(all[i].0, all[i].1.dob, all[i].1.age, all[i].1.gender))
    }
  }

  /** A blank normalised number is rejected as empty, before any format check. */
  lemma BlankRejected(nicNumber: Option<string>, today: Date)
    requires JavaIsBlank(NormalizeNic(nicNumber))
    ensures Decode(nicNumber, today) == Failure(IllegalArgument(EmptyError))
  {
  }

  /**
   * Acceptance: the normalised number has one of the two shapes, its day code is a
   * male code (1-366) or a female code (501-866), and the day exists in the year.
   */
  lemma AcceptedIff(nicNumber: Option<string>, today: Date)
    ensures var nic := NormalizeNic(nicNumber);
      Decode(nicNumber, today).Success? <==>
        && (IsValidNewNic(nic) || IsValidOldNic(nic))
        && (1 <= DayCode(nic) <= 366 || 501 <= DayCode(nic) <= 866)
        && (if DayCode(nic) > 500 then DayCode(nic) - 500 else DayCode(nic)) <= YearLength(BirthYear(nic))
  {
    var nic := NormalizeNic(nicNumber);
    if IsValidNewNic(nic) || IsValidOldNic(nic) {
      assert nic != [] && !JavaWhitespace(nic[0]);
    }
  }

  /** A well-shaped number that is not accepted fails with the stage's own exception. */
  lemma RejectionReasons(nicNumber: Option<string>, today: Date)
    requires var nic := NormalizeNic(nicNumber); IsValidNewNic(nic) || IsValidOldNic(nic)
    ensures var nic := NormalizeNic(nicNumber); var code := DayCode(nic);
      var day := if code > 500 then code - 500 else code;
      && (day < 1 || day > 366 ==> Decode(nicNumber, today) == Failure(IllegalArgument(DayOfYearError(nic))))
      && (day == 366 && !IsLeap(BirthYear(nic)) ==>
            Decode(nicNumber, today) == Failure(DateTimeError(LeapError(BirthYear(nic)))))
  {
    var nic := NormalizeNic(nicNumber);
    assert nic != [] && !JavaWhitespace(nic[0]);
  }

  /** Anything else that is not blank fails the format check, naming the number as given. */
  lemma MalformedRejected(nicNumber: Option<string>, today: Date)
    requires var nic := NormalizeNic(nicNumber); !JavaIsBlank(nic) && !IsValidNewNic(nic) && !IsValidOldNic(nic)
    ensures Decode(nicNumber, today) == Failure(IllegalArgument(FormatError(nicNumber)))
  {
  }

  /**
   * An accepted number: the record carries the normalised number, the gender is FEMALE
   * exactly when the code exceeds 500, the date is the corrected ordinal day of the
   * birth year, and the age is the whole years up to today.
   */
  lemma AcceptedRecord(nicNumber: Option<string>, today: Date)
    requires Decode(nicNumber, today).Success?
    ensures var nic := NormalizeNic(nicNumber); var rec := Decode(nicNumber, today).value;
      && (IsValidNewNic(nic) || IsValidOldNic(nic))
      && rec.nicNumber == nic
      && rec.gender == (if DayCode(nic) > 500 then Female else Male)
      && rec.dob == OrdinalToDate(BirthYear(nic), if DayCode(nic) > 500 then DayCode(nic) - 500 else DayCode(nic))
      && rec.age == WholeYears(rec.dob, today)
  {
    var nic := NormalizeNic(nicNumber);
    var day := if DayCode(nic) > 500 then DayCode(nic) - 500 else DayCode(nic);
    var dob := ExtractDob(nic).value;
    OrdinalRoundTrip(dob);
  }

  /** Whenever the date of birth can be extracted, the gender can too: its exception is never reached. */
  lemma GenderFollowsDob(nic: string)
    requires IsValidNewNic(nic) || IsValidOldNic(nic)
    requires ExtractDob(nic).Success?
    ensures ExtractGender(nic).Success?
  {
  }

  /** The legacy century rule: suffixes 00-29 are the 2000s, 30-99 the 1900s. */
  lemma LegacyCentury(nic: string)
    requires IsValidOldNic(nic)
    ensures AllDigits(nic[..2])
    ensures DigitsValue(nic[..2]) <= 29 ==> BirthYear(nic) == 2000 + DigitsValue(nic[..2])
    ensures DigitsValue(nic[..2]) >= 30 ==> BirthYear(nic) == 1900 + DigitsValue(nic[..2])
  {
    DigitFields(nic);
  }

  lemma NormalizeLegacy(digits: string, letter: char)
    requires |digits| == 9 && AllDigits(digits) && letter in "vVxX"
    ensures NormalizeNic(Some(digits + [letter])) == digits + [UpperChar(letter)]
    ensures IsValidOldNic(digits + [UpperChar(letter)])
  {
    var s := digits + [letter];
    assert !JavaTrimmable(s[0]) && LeadingBlanks(s, JavaTrimmable) == 0;
    assert s[0..] == s;
    assert Trim(s, JavaTrimmable) == s;
  }

  /** The case of the legacy letter does not matter: "v" and "x" are upper-cased before the check. */
  lemma LetterCaseIgnored(digits: string, today: Date)
    requires |digits| == 9 && AllDigits(digits)
    ensures Decode(Some(digits + "v"), today) == Decode(Some(digits + "V"), today)
    ensures Decode(Some(digits + "x"), today) == Decode(Some(digits + "X"), today)
  {
    NormalizeLegacy(digits, 'v');
    NormalizeLegacy(digits, 'V');
    SameNormalForm(Some(digits + "v"), Some(digits + "V"), today);
    NormalizeLegacy(digits, 'x');
    NormalizeLegacy(digits, 'X');
    SameNormalForm(Some(digits + "x"), Some(digits + "X"), today);
  }

  /** Two inputs that normalise to the same well-shaped number decode alike. */
  lemma SameNormalForm(a: Option<string>, b: Option<string>, today: Date)
    requires NormalizeNic(a) == NormalizeNic(b)
    requires IsValidNewNic(NormalizeNic(a)) || IsValidOldNic(NormalizeNic(a))
    ensures Decode(a, today) == Decode(b, today)
  {
  }
}
