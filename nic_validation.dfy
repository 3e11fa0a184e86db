/**
 * The browser-side identity-number decoder (validateNic): classifies a trimmed
 * input as a legacy number (9 digits and V/X) or a current one (12 digits),
 * reads the birth year and the 3-digit day code, splits off the +500 female
 * offset and turns the ordinal day into a birth date the way a JavaScript Date
 * does, rejecting with a reason at the first stage that fails.
 */
module NicValidation {
  import opened Wrappers
  import opened Text
  import opened Calendar

  const FormatError := "Invalid format. Must be 9 digits + V/X or 12 digits."
  const DaysError := "Invalid days in NIC."
  const EncodedDateError := "Invalid birth date encoded."
  const CalculationError := "Invalid birth date calculation."

  const OldType := "old"
  const NewType := "new"
  const Male := "MALE"
  const Female := "FEMALE"

  /**
   * The decode result, also the shape of a record in the record store. An absent
   * field (null, or a key the object does not have) is None.
   */
  datatype NicData = NicData(
    isValid: bool,
    nicType: Option<string>,
    gender: Option<string>,
    birthDate: Option<Date>,
    age: Option<int>,
    error: Option<string>,
    originalNic: Option<string>)

  function Rejected(nicType: Option<string>, error: string): NicData
  {
    NicData(false, nicType, None, None, None, Some(error), None)
  }

  /** /^\d{9}[vVxX]$/ */
  predicate IsOldType(nic: string) { |nic| == 10 && AllDigits(nic[..9]) && nic[9] in "vVxX" }

  /** /^\d{12}$/ */
  predicate IsNewType(nic: string) { |nic| == 12 && AllDigits(nic) }

  /** The birth year as encoded: 1900 plus two digits for a legacy number, four digits verbatim otherwise. */
  function EncodedYear(nic: string): (y: int)
    requires IsOldType(nic) || IsNewType(nic)
    ensures IsOldType(nic) ==> 1900 <= y <= 1999
    ensures IsNewType(nic) ==> 0 <= y <= 9999
  {
    DigitFields(nic);
    if IsOldType(nic) then 1900 + DigitsValue(nic[..2]) else DigitsValue(nic[..4])
  }

  /** The 3-digit day code that follows the year digits. */
  function DayCode(nic: string): (code: nat)
    requires IsOldType(nic) || IsNewType(nic)
    ensures code <= 999
  {
    DigitFields(nic);
    if IsOldType(nic) then DigitsValue(nic[2..5]) else DigitsValue(nic[4..7])
  }

  /** The day of the year once the female offset is removed. */
  function EffectiveDay(code: int): int { if code > 500 then code - 500 else code }

  /** The year a JavaScript Date gets from `new Date(y, 0)`: two-digit years mean 19xx. */
  function JsFullYear(y: int): (r: int)
    ensures !(0 <= r <= 99)
    ensures 0 <= y <= 99 ==> r == 1900 + y
    ensures !(0 <= y <= 99) ==> r == y
  {
    if 0 <= y <= 99 then 1900 + y else y
  }

  /**
   * `new Date(y, 0)` followed by `setDate(days)`: day `days` counted from January 1st
   * of year `y`, running into the next year when the year is too short.
   */
  function JsJanuaryDay(y: int, days: int): (d: Date)
    requires 1 <= days <= 366
    ensures ValidDate(d)
    ensures d.year == y <==> days <= YearLength(y)
    ensures d.year == y ==> DayOfYear(d) == days
    ensures days > YearLength(y) ==> d == Date(y + 1, 1, 1)
  {
    if days <= YearLength(y) then OrdinalToDate(y, days) else Date(y + 1, 1, days - YearLength(y))
  }

  /** validateNic, with the current date passed in. */
  function ValidateNic(input: string, today: Date): (r: NicData)
    ensures r.isValid <==> r.error.None?
    ensures r.nicType.None? <==> r.error == Some(FormatError)
    ensures r.isValid ==>
      && r.nicType.Some? && r.gender.Some? && r.birthDate.Some? && ValidDate(r.birthDate.value)
      && r.age == Some(WholeYears(r.birthDate.value, today))
  {
    var nic := Trim(input, JsWhitespace);
    if !IsOldType(nic) && !IsNewType(nic) then Rejected(None, FormatError)
    else
      var nicType := if IsOldType(nic) then OldType else NewType;
      var year := EncodedYear(nic);
      var code := DayCode(nic);
      if code < 1 || code > 866 then Rejected(Some(nicType), DaysError)
      else
        var gender := if code > 500 then Female else Male;
        var days := EffectiveDay(code);
        if days < 1 || days > 366 then Rejected(Some(nicType), EncodedDateError)
        else
          var dob := JsJanuaryDay(JsFullYear(year), days);
          if dob.year != year then Rejected(Some(nicType), CalculationError)
          else NicData(true, Some(nicType), Some(gender), Some(dob), Some(WholeYears(dob, today)),
                       None, Some(ToUpper(nic)))
  }

  /** Input that is neither shape after trimming is rejected with the format message and nothing else. */
  lemma FormatRejected(input: string, today: Date)
    requires var nic := Trim(input, JsWhitespace); !IsOldType(nic) && !IsNewType(nic)
    ensures var r := ValidateNic(input, today);
      && !r.isValid && r.nicType == None && r.gender == None && r.birthDate == None
      && r.age == None && r.error == Some(FormatError) && r.originalNic == None
  {
  }

  /** A legacy number is typed "old" and dated in the 1900s; a current one is typed "new". */
  lemma EraOfShape(input: string, today: Date)
    requires var nic := Trim(input, JsWhitespace); IsOldType(nic) || IsNewType(nic)
    ensures var nic := Trim(input, JsWhitespace); var r := ValidateNic(input, today);
      && r.nicType == Some(if |nic| == 10 then OldType else NewType)
      && (r.isValid && |nic| == 10 ==> 1900 <= r.birthDate.value.year <= 1999)
      && (r.isValid && |nic| == 12 ==> r.birthDate.value.year == DigitsValue(nic[..4]))
  {
    DigitFields(Trim(input, JsWhitespace));
  }

  /** A raw day code outside [1, 866] is rejected, still reporting the type. */
  lemma DayCodeOutOfRange(input: string, today: Date)
    requires var nic := Trim(input, JsWhitespace);
      (IsOldType(nic) || IsNewType(nic)) && (DayCode(nic) < 1 || DayCode(nic) > 866)
    ensures var r := ValidateNic(input, today);
      !r.isValid && r.nicType.Some? && r.error == Some(DaysError) && r.gender == None && r.birthDate == None
  {
  }

  /** Codes 367 to 500 name no day of the year and are rejected as badly encoded. */
  lemma EncodedDayOutOfRange(input: string, today: Date)
    requires var nic := Trim(input, JsWhitespace);
      (IsOldType(nic) || IsNewType(nic)) && 367 <= DayCode(nic) <= 500
    ensures var r := ValidateNic(input, today);
      !r.isValid && r.nicType.Some? && r.error == Some(EncodedDateError)
  {
  }

  /**
   * The decoder accepts exactly the well-shaped numbers whose day code is in [1, 866],
   * whose effective day is in [1, 366] and exists in the encoded year, and whose
   * year a JavaScript Date keeps (not 0..99).
   */
  lemma ValidIff(input: string, today: Date)
    ensures var nic := Trim(input, JsWhitespace);
      ValidateNic(input, today).isValid <==>
        && (IsOldType(nic) || IsNewType(nic))
        && 1 <= DayCode(nic) <= 866
        && 1 <= EffectiveDay(DayCode(nic)) <= 366
        && EffectiveDay(DayCode(nic)) <= YearLength(EncodedYear(nic))
        && !(0 <= EncodedYear(nic) <= 99)
  {
  }

  /**
   * An accepted number: the gender is FEMALE exactly when the code exceeds 500, the birth
   * date is the effective ordinal day of the encoded year, the age is the whole years
   * to today, the normalised number is the trimmed input upper-cased, and no error is set.
   */
  lemma AcceptedContents(input: string, today: Date)
    requires ValidateNic(input, today).isValid
    ensures var nic := Trim(input, JsWhitespace); var r := ValidateNic(input, today);
      && (IsOldType(nic) || IsNewType(nic))
      && r.gender == Some(if DayCode(nic) > 500 then Female else Male)
      && r.birthDate == Some(OrdinalToDate(EncodedYear(nic), EffectiveDay(DayCode(nic))))
      && r.age == Some(WholeYears(r.birthDate.value, today))
      && r.originalNic == Some(ToUpper(nic))
      && r.error == None
  {
  }

  /** Gender, birth date and age are present exactly on acceptance; an error is present exactly on rejection. */
  lemma PopulatedIffValid(input: string, today: Date)
    ensures var r := ValidateNic(input, today);
      && (r.gender.Some? <==> r.isValid)
      && (r.birthDate.Some? <==> r.isValid)
      && (r.age.Some? <==> r.isValid)
      && (r.error.Some? <==> !r.isValid)
  {
  }

  /**
   * The normalised number differs from the trimmed input at most in its last
   * character, which is then the upper-cased legacy letter.
   */
  lemma {:induction false} NormalisedNumber(input: string, today: Date)
    requires ValidateNic(input, today).isValid
    ensures var nic := Trim(input, JsWhitespace); var s := ValidateNic(input, today).originalNic.value;
      && |s| == |nic| && s[..|s| - 1] == nic[..|nic| - 1]
      && (|nic| == 12 ==> s == nic)
      && (|nic| == 10 ==> s[9] == UpperChar(nic[9]) && s[9] in "VX")
  {
    var nic := Trim(input, JsWhitespace);
    var s := ToUpper(nic);
    assert ValidateNic(input, today).originalNic == Some(s) && (IsOldType(nic) || IsNewType(nic)) by {
      AcceptedContents(input, today);
    }
    assert forall i :: 0 <= i < |nic| - 1 ==> IsDigit(nic[i]) by {
      if |nic| == 10 { assert forall i :: 0 <= i < 9 ==> nic[..9][i] == nic[i]; }
    }
    assert s[..|s| - 1] == nic[..|nic| - 1];
  }

  /** Effective day 366 is accepted in a leap year and rejected as a calculation error otherwise. */
  lemma LeapDayBoundary(input: string, today: Date)
    requires var nic := Trim(input, JsWhitespace);
      (IsOldType(nic) || IsNewType(nic)) && DayCode(nic) in {366, 866} && EncodedYear(nic) >= 100
    ensures var nic := Trim(input, JsWhitespace); var r := ValidateNic(input, today);
      && (IsLeap(EncodedYear(nic)) ==> r.isValid && r.birthDate == Some(Date(EncodedYear(nic), 12, 31)))
      && (!IsLeap(EncodedYear(nic)) ==> !r.isValid && r.error == Some(CalculationError))
  {
    var nic := Trim(input, JsWhitespace);
    var y := EncodedYear(nic);
    var r := ValidateNic(input, today);
    assert EffectiveDay(DayCode(nic)) == 366 && JsFullYear(y) == y;
    if IsLeap(y) {
      assert r.isValid && r.birthDate == Some(OrdinalToDate(y, 366)) by {
        ValidIff(input, today);
        AcceptedContents(input, today);
      }
      assert DayOfYear(Date(y, 12, 31)) == 366 by { MonthsFillYear(y); }
      OrdinalRoundTrip(Date(y, 12, 31));
    } else {
      assert YearLength(y) == 365;
    }
  }

  /** A current number whose year digits are 0000..0099 is always rejected: the JavaScript Date moves it to the 1900s. */
  lemma EarlyYearsRejected(input: string, today: Date)
    requires var nic := Trim(input, JsWhitespace);
      IsNewType(nic) && EncodedYear(nic) <= 99 && 1 <= DayCode(nic) <= 866 && EffectiveDay(DayCode(nic)) <= 366
    ensures var r := ValidateNic(input, today);
      !r.isValid && r.nicType == Some(NewType) && r.error == Some(CalculationError)
  {
  }

  lemma TrimKeeps(s: string)
    requires s != [] && !JsWhitespace(s[0]) && !JsWhitespace(s[|s| - 1])
    ensures Trim(s, JsWhitespace) == s
  {
  }

  /** The year and day code of a legacy number, read from its first five characters. */
  lemma LegacyPrefix(nic: string, prefix: string)
    requires IsOldType(nic) && |prefix| == 5 && nic[..5] == prefix
    ensures AllDigits(prefix[..2]) && AllDigits(prefix[2..])
    ensures EncodedYear(nic) == 1900 + DigitsValue(prefix[..2]) && DayCode(nic) == DigitsValue(prefix[2..])
  {
    assert nic[..2] == prefix[..2] && nic[2..5] == prefix[2..];
    DigitFields(nic);
  }

  /** A legacy number whose day code names a day of its year: the decoded date, gender and number. */
  lemma {:induction false} LegacyAccepted(nic: string, today: Date)
    requires IsOldType(nic) && 1 <= DayCode(nic) <= 866
    requires 1 <= EffectiveDay(DayCode(nic)) <= YearLength(EncodedYear(nic))
    ensures var r := ValidateNic(nic, today);
      && r.birthDate == Some(OrdinalToDate(EncodedYear(nic), EffectiveDay(DayCode(nic))))
      && r.gender == Some(if DayCode(nic) > 500 then Female else Male)
      && r.originalNic == Some(nic[..9] + [UpperChar(nic[9])])
  {
    assert IsDigit(nic[0]) by { assert nic[..9][0] == nic[0]; }
    TrimKeeps(nic);
    ValidIff(nic, today);
    AcceptedContents(nic, today);
    UpperLegacy(nic);
  }

  /** Upper-casing a legacy number changes at most its letter. */
  lemma UpperLegacy(nic: string)
    requires IsOldType(nic)
    ensures ToUpper(nic) == nic[..9] + [UpperChar(nic[9])]
  {
    forall k | 0 <= k < 9 ensures UpperChar(nic[k]) == nic[k] { assert IsDigit(nic[..9][k]); }
  }

  /** A legacy number beginning 85001 (such as 850010123V) is a man born on day 1 of 1985. */
  lemma {:induction false} ExampleLegacyMale(nic: string, today: Date)
    requires IsOldType(nic) && nic[..5] == "85001"
    ensures ValidateNic(nic, today).birthDate == Some(Date(1985, 1, 1))
    ensures ValidateNic(nic, today).gender == Some(Male)
  {
    assert EncodedYear(nic) == 1985 && DayCode(nic) == 1 by {
      LegacyPrefix(nic, "85001");
      assert "85001"[..2] == "85" && "85001"[2..] == "001";
      assert DigitsValue("85") == 85 by { assert "85"[..1] == "8"; }
      assert DigitsValue("001") == 1 by { assert "001"[..2] == "00" && "00"[..1] == "0"; }
    }
    LegacyAccepted(nic, today);
    OrdinalRoundTrip(Date(1985, 1, 1));
  }

  /**
   * A legacy number beginning 85501 with a lower-case letter (such as 855010123v): the same
   * day with the female offset, and the letter upper-cased.
   */
  lemma {:induction false} ExampleLegacyFemale(nic: string, today: Date)
    requires IsOldType(nic) && nic[..5] == "85501" && nic[9] == 'v'
    ensures ValidateNic(nic, today).birthDate == Some(Date(1985, 1, 1))
    ensures ValidateNic(nic, today).gender == Some(Female)
    ensures ValidateNic(nic, today).originalNic == Some(nic[..9] + "V")
  {
    assert EncodedYear(nic) == 1985 && DayCode(nic) == 501 by {
      LegacyPrefix(nic, "85501");
      assert "85501"[..2] == "85" && "85501"[2..] == "501";
      assert DigitsValue("85") == 85 by { assert "85"[..1] == "8"; }
      assert DigitsValue("501") == 501 by { assert "501"[..2] == "50" && "50"[..1] == "5"; }
    }
    LegacyAccepted(nic, today);
    OrdinalRoundTrip(Date(1985, 1, 1));
  }

  /** A legacy number beginning 85051 (such as 850510123V): code 051 is day 51 for a man, February 20th. */
  lemma {:induction false} ExampleDayFiftyOne(nic: string, today: Date)
    requires IsOldType(nic) && nic[..5] == "85051"
    ensures ValidateNic(nic, today).birthDate == Some(Date(1985, 2, 20))
    ensures ValidateNic(nic, today).gender == Some(Male)
  {
    assert EncodedYear(nic) == 1985 && DayCode(nic) == 51 by {
      LegacyPrefix(nic, "85051");
      assert "85051"[..2] == "85" && "85051"[2..] == "051";
      assert DigitsValue("85") == 85 by { assert "85"[..1] == "8"; }
      assert DigitsValue("051") == 51 by { assert "051"[..2] == "05" && "05"[..1] == "0"; }
    }
    LegacyAccepted(nic, today);
    assert DayOfYear(Date(1985, 2, 20)) == 51;
    OrdinalRoundTrip(Date(1985, 2, 20));
  }

  /** A current number whose day code is 500 (such as 198450010123) names no day. */
  lemma {:induction false} ExampleCodeFiveHundred(nic: string, today: Date)
    requires IsNewType(nic) && nic[4..7] == "500"
    ensures ValidateNic(nic, today) == Rejected(Some(NewType), EncodedDateError)
  {
    TrimKeeps(nic);
    DigitFields(nic);
    assert DigitsValue("500") == 500 by { assert "500"[..2] == "50" && "50"[..1] == "5"; }
    EncodedDayOutOfRange(nic, today);
  }

  /** Letters where digits belong fail the shape check. */
  lemma ExampleGarbage(today: Date)
    ensures ValidateNic("abcdefghi1", today) == Rejected(None, FormatError)
  {
    TrimKeeps("abcdefghi1");
  }
}
