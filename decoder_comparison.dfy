/**
 * The browser decoder and the server decoder side by side: where they agree,
 * and the two places where they do not (the century of a legacy number, and
 * current numbers dated before the year 100).
 */
module DecoderComparison {
  import opened Wrappers
  import opened Text
  import opened Calendar
  import NV = NicValidation
  import NR = NicRecordService

  /** A number in either accepted shape, with an upper-case legacy letter. */
  predicate Canonical(nic: string)
  {
    NV.IsNewType(nic) || (NV.IsOldType(nic) && nic[9] in "VX")
  }

  /** The browser's two patterns are the server's two patterns read after upper-casing. */
  lemma ShapesAgree(nic: string)
    ensures NV.IsNewType(nic) <==> NR.IsValidNewNic(ToUpper(nic))
    ensures NV.IsOldType(nic) <==> NR.IsValidOldNic(ToUpper(nic))
  {
    NR.UpperShapes(nic);
  }

  /** Neither decoder's trimming or upper-casing changes a canonical number. */
  lemma CanonicalUnchanged(nic: string)
    requires Canonical(nic)
    ensures Trim(nic, JsWhitespace) == nic
    ensures NR.NormalizeNic(Some(nic)) == nic
    ensures NR.IsValidNewNic(nic) == NV.IsNewType(nic) && NR.IsValidOldNic(nic) == NV.IsOldType(nic)
    ensures NR.IsValidNewNic(nic) || NR.IsValidOldNic(nic)
    ensures NR.DayCode(nic) == NV.DayCode(nic)
  {
    assert Trim(nic, JsWhitespace) == nic && Trim(nic, JavaTrimmable) == nic by { CanonicalTrimmed(nic); }
    assert ToUpper(nic) == nic by { CanonicalUpper(nic); }
  }

  /** A canonical number starts with a digit, so neither trimming rule removes anything. */
  lemma CanonicalTrimmed(nic: string)
    requires Canonical(nic)
    ensures Trim(nic, JsWhitespace) == nic && Trim(nic, JavaTrimmable) == nic
  {
    assert !JsWhitespace(nic[0]) && !JavaTrimmable(nic[0]) by {
      assert IsDigit(nic[0]) by {
        if NV.IsOldType(nic) { assert nic[..9][0] == nic[0]; }
      }
    }
    assert nic[0..] == nic;
  }

  /** A canonical number has no lower-case letter, so upper-casing keeps it. */
  lemma CanonicalUpper(nic: string)
    requires Canonical(nic)
    ensures ToUpper(nic) == nic
  {
    forall i | 0 <= i < |nic| ensures UpperChar(nic[i]) == nic[i] {
      if i < 9 && NV.IsOldType(nic) { assert nic[..9][i] == nic[i]; }
    }
  }

  /** What the browser reports for a canonical number it accepts, with the trimming removed. */
  lemma {:induction false} BrowserRecord(nic: string, today: Date)
    requires Canonical(nic) && NV.ValidateNic(nic, today).isValid
    ensures var f := NV.ValidateNic(nic, today); var year := NV.EncodedYear(nic); var day := NV.EffectiveDay(NV.DayCode(nic));
      && 1 <= day <= YearLength(year)
      && f.birthDate == Some(OrdinalToDate(year, day))
      && f.gender == Some(if NV.DayCode(nic) > 500 then NV.Female else NV.Male)
      && f.age == Some(WholeYears(OrdinalToDate(year, day), today))
      && f.originalNic == Some(nic)
  {
    assert Trim(nic, JsWhitespace) == nic && ToUpper(nic) == nic by { CanonicalUnchanged(nic); }
    NV.ValidIff(nic, today);
    NV.AcceptedContents(nic, today);
  }

  /** What the server stores for a canonical number it accepts, with the normalisation removed. */
  lemma {:induction false} ServerRecord(nic: string, today: Date)
    requires Canonical(nic) && NR.Decode(Some(nic), today).Success?
    ensures var b := NR.Decode(Some(nic), today).value;
      && (NR.IsValidNewNic(nic) || NR.IsValidOldNic(nic))
      && 1 <= NV.EffectiveDay(NR.DayCode(nic)) <= YearLength(NR.BirthYear(nic))
      && b.dob == OrdinalToDate(NR.BirthYear(nic), NV.EffectiveDay(NR.DayCode(nic)))
      && b.gender == (if NR.DayCode(nic) > 500 then NR.Female else NR.Male)
      && b.age == WholeYears(b.dob, today)
      && b.nicNumber == nic
  {
    assert NR.NormalizeNic(Some(nic)) == nic by { CanonicalUnchanged(nic); }
    NR.AcceptedIff(Some(nic), today);
    NR.AcceptedRecord(Some(nic), today);
  }

  /** Where both read the same year, the two decoders see the same number, year and day code. */
  lemma SameReading(nic: string)
    requires Canonical(nic)
    requires NV.IsNewType(nic) ==> NV.EncodedYear(nic) >= 100
    requires NV.IsOldType(nic) ==> NV.EncodedYear(nic) >= 1930
    ensures Trim(nic, JsWhitespace) == nic && NR.NormalizeNic(Some(nic)) == nic
    ensures NR.IsValidNewNic(nic) || NR.IsValidOldNic(nic)
    ensures NR.BirthYear(nic) == NV.EncodedYear(nic) >= 100 && NR.DayCode(nic) == NV.DayCode(nic)
  {
    CanonicalUnchanged(nic);
    DigitFields(nic);
  }

  /** Where both read the same year, the decoders accept the same numbers. */
  lemma {:induction false} AcceptAlike(nic: string, today: Date)
    requires Canonical(nic)
    requires NV.IsNewType(nic) ==> NV.EncodedYear(nic) >= 100
    requires NV.IsOldType(nic) ==> NV.EncodedYear(nic) >= 1930
    ensures NV.ValidateNic(nic, today).isValid <==> NR.Decode(Some(nic), today).Success?
  {
    SameReading(nic);
    NV.ValidIff(nic, today);
    NR.AcceptedIff(Some(nic), today);
  }

  /** Where both read the same year and accept, they produce the same date, gender, age and number. */
  lemma {:induction false} RecordAlike(nic: string, today: Date)
    requires Canonical(nic)
    requires NV.IsNewType(nic) ==> NV.EncodedYear(nic) >= 100
    requires NV.IsOldType(nic) ==> NV.EncodedYear(nic) >= 1930
    requires NV.ValidateNic(nic, today).isValid && NR.Decode(Some(nic), today).Success?
    ensures var f := NV.ValidateNic(nic, today); var b := NR.Decode(Some(nic), today).value;
      && f.birthDate == Some(b.dob) && f.gender == Some(b.gender)
      && f.age == Some(b.age) && f.originalNic == Some(b.nicNumber)
  {
    SameReading(nic);
    BrowserRecord(nic, today);
    ServerRecord(nic, today);
  }

  /**
   * Where both read the same year (a current number from the year 100 on, or a legacy
   * number with a suffix of 30 or more), the decoders accept the same numbers and
   * produce the same date, gender, age and normalised number.
   */
  lemma DecodersAgree(nic: string, today: Date)
    requires Canonical(nic)
    requires NV.IsNewType(nic) ==> NV.EncodedYear(nic) >= 100
    requires NV.IsOldType(nic) ==> NV.EncodedYear(nic) >= 1930
    ensures var f := NV.ValidateNic(nic, today); var b := NR.Decode(Some(nic), today);
      && (f.isValid <==> b.Success?)
      && (f.isValid ==>
            && f.birthDate == Some(b.value.dob) && f.gender == Some(b.value.gender)
            && f.age == Some(b.value.age) && f.originalNic == Some(b.value.nicNumber))
  {
    AcceptAlike(nic, today);
    if NV.ValidateNic(nic, today).isValid {
      RecordAlike(nic, today);
    }
  }

  /**
   * A legacy number with a suffix up to 29 that both accept is dated a century apart:
   * the browser reads 19xx, the server 20xx.
   */
  lemma {:induction false} LegacyCenturyApart(nic: string, today: Date)
    requires Canonical(nic) && NV.IsOldType(nic) && NV.EncodedYear(nic) <= 1929
    requires NV.ValidateNic(nic, today).isValid && NR.Decode(Some(nic), today).Success?
    ensures var f := NV.ValidateNic(nic, today).birthDate; var b := NR.Decode(Some(nic), today);
      f.Some? && b.Success? && f.value.year + 100 == b.value.dob.year
  {
    BrowserRecord(nic, today);
    ServerRecord(nic, today);
    assert NR.BirthYear(nic) == NV.EncodedYear(nic) + 100 by {
      CanonicalUnchanged(nic);
      DigitFields(nic);
    }
  }

  /** Day 366 of a leap year is December 31st. */
  lemma LastDayOfLeapYear(y: int)
    requires IsLeap(y)
    ensures OrdinalToDate(y, 366) == Date(y, 12, 31)
  {
    MonthsFillYear(y);
    OrdinalRoundTrip(Date(y, 12, 31));
  }

  /** The browser reads legacy year 00 as 1900, which has no day 366. */
  lemma {:induction false} BrowserRejectsLeapDay1900(nic: string, today: Date)
    requires Canonical(nic) && NV.IsOldType(nic) && NV.EncodedYear(nic) == 1900
    requires NV.DayCode(nic) == 366 || NV.DayCode(nic) == 866
    ensures !NV.ValidateNic(nic, today).isValid && NV.ValidateNic(nic, today).error == Some(NV.CalculationError)
  {
    CanonicalUnchanged(nic);
    assert !IsLeap(1900);
    NV.LeapDayBoundary(nic, today);
  }

  /** The server reads legacy year 00 as 2000, whose day 366 is December 31st. */
  lemma {:induction false} ServerAcceptsLeapDay2000(nic: string, today: Date)
    requires NR.NormalizeNic(Some(nic)) == nic && NR.IsValidOldNic(nic) && NR.BirthYear(nic) == 2000
    requires NR.DayCode(nic) == 366 || NR.DayCode(nic) == 866
    ensures NR.Decode(Some(nic), today).Success? && NR.Decode(Some(nic), today).value.dob == Date(2000, 12, 31)
  {
    var day := if NR.DayCode(nic) > 500 then NR.DayCode(nic) - 500 else NR.DayCode(nic);
    assert day == 366 && YearLength(2000) == 366;
    assert NR.Decode(Some(nic), today).Success? by {
      NR.AcceptedIff(Some(nic), today);
    }
    assert NR.Decode(Some(nic), today).value.dob == OrdinalToDate(2000, day) by {
      NR.AcceptedRecord(Some(nic), today);
    }
    LastDayOfLeapYear(2000);
  }

  /** The suffix 00, which the browser reads as 1900, is 2000 on the server. */
  lemma SuffixZeroZero(nic: string)
    requires NV.IsOldType(nic) && NV.EncodedYear(nic) == 1900 && NR.IsValidOldNic(nic)
    ensures NR.BirthYear(nic) == 2000
  {
    DigitFields(nic);
    assert DigitsValue(nic[..2]) == 0;
  }

  /**
   * Day 366 of legacy year 00: the browser's 1900 is not a leap year and it rejects the
   * number, while the server's 2000 is, and it dates the holder December 31st, 2000.
   */
  lemma LeapDayOfYearZeroZero(nic: string, today: Date)
    requires Canonical(nic) && NV.IsOldType(nic) && NV.EncodedYear(nic) == 1900
    requires NV.DayCode(nic) == 366 || NV.DayCode(nic) == 866
    ensures var f := NV.ValidateNic(nic, today); var b := NR.Decode(Some(nic), today);
      && !f.isValid && f.error == Some(NV.CalculationError)
      && b.Success? && b.value.dob == Date(2000, 12, 31)
  {
    var f := NV.ValidateNic(nic, today);
    assert !f.isValid && f.error == Some(NV.CalculationError) by { BrowserRejectsLeapDay1900(nic, today); }
    var b := NR.Decode(Some(nic), today);
    assert b.Success? && b.value.dob == Date(2000, 12, 31) by {
      CanonicalUnchanged(nic);
      SuffixZeroZero(nic);
      ServerAcceptsLeapDay2000(nic, today);
    }
  }

  /**
   * A current number dated in the years 0000..0099 with a day that exists in that year:
   * the browser rejects it, the server accepts it with the year as written.
   */
  lemma {:induction false} EarlyYearsOnlyOnServer(nic: string, today: Date)
    requires Canonical(nic) && NV.IsNewType(nic) && NV.EncodedYear(nic) <= 99
    requires 1 <= NV.DayCode(nic) <= 866 && 1 <= NV.EffectiveDay(NV.DayCode(nic)) <= 366
    requires NV.EffectiveDay(NV.DayCode(nic)) <= YearLength(NV.EncodedYear(nic))
    ensures var f := NV.ValidateNic(nic, today); var b := NR.Decode(Some(nic), today);
      && !f.isValid && f.error == Some(NV.CalculationError)
      && b.Success? && b.value.dob == OrdinalToDate(NV.EncodedYear(nic), NV.EffectiveDay(NV.DayCode(nic)))
  {
    assert !NV.ValidateNic(nic, today).isValid && NV.ValidateNic(nic, today).error == Some(NV.CalculationError) by {
      CanonicalUnchanged(nic);
      NV.EarlyYearsRejected(nic, today);
    }
    assert NR.BirthYear(nic) == NV.EncodedYear(nic) && NR.DayCode(nic) == NV.DayCode(nic) by {
      CanonicalUnchanged(nic);
      DigitFields(nic);
    }
    assert NR.Decode(Some(nic), today).Success? by {
      CanonicalUnchanged(nic);
      NR.AcceptedIff(Some(nic), today);
    }
    assert NR.Decode(Some(nic), today).value.dob == OrdinalToDate(NV.EncodedYear(nic), NV.EffectiveDay(NV.DayCode(nic))) by {
      CanonicalUnchanged(nic);
      NR.AcceptedRecord(Some(nic), today);
    }
  }
}
