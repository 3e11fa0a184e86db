# Sri Lankan NIC validation — a Dafny model

The system decodes Sri Lankan National Identity Card (NIC) numbers. There are two
shapes of number:

- a legacy one: nine digits and a letter V or X;
- a current one: twelve digits.

Both hold the holder's birth year and a three-digit day code. The day code is the
ordinal day of birth in that year, plus 500 for a woman. The system reads the
birth date, gender and age out of the number. It has two halves, and this project
models the core of each.

The browser half:

- `validateNic`, the browser-side decoder;
- the record store `useNicStore`. It keeps the list of decoded records and the
  loading / error / success flags that every remote operation drives.
- the session store `useAuthStore`.

The server half:

- `NicRecordService`. It decodes a number and upserts its record.
- `ValidationService`. It inserts a record only when its number is new, looks a
  record up, and lists all records, with the age recomputed as of today.
- `ReportUtils`. It formats the cells of the PDF and spreadsheet reports.

Files and modules:

| file | module | models |
|---|---|---|
| `wrappers.dfy` | `Wrappers` | `Option` and `Result` |
| `text.dfy` | `Text` | decimal digits and numerals, zero padding, the three trimming rules (Java `trim`, Java `isBlank`, ECMAScript `trim`), ASCII upper-casing |
| `calendar.dfy` | `Calendar` | the proleptic Gregorian calendar: leap years, ordinal days and dates, whole years between two dates, and the "YYYY-MM-DD" date text of section 4.1.2.2 of ISO 8601:2004 |
| `nic_validation.dfy` | `NicValidation` | `validateNic`, with the JavaScript `Date` behaviour it depends on |
| `repository.dfy` | `Repository` | the table behind both services: rows keyed by NIC number, plus the order `findAll` lists them in |
| `nic_record_service.dfy` | `NicRecordService` | the server decoder (as a function returning a record or the exception it throws) and the service class that upserts |
| `validation_service.dfy` | `ValidationService` | the service class for insert, lookup and listing |
| `report_utils.dfy` | `ReportUtils` | `formatString`, `formatDate` and `formatAge` |
| `nic_store.dfy` | `NicStore` | the record store as a class; each remote reply is a parameter |
| `auth_store.dfy` | `AuthStore` | the session store as a class; the registration reply is a parameter |
| `decoder_comparison.dfy` | `DecoderComparison` | where the two decoders agree and where they differ |

Notes on the model:

- The current date is a parameter wherever the source reads the clock.
- Each store or service class keeps the source's fields and updates them in place.
  Its methods state the whole new state.
- The decoders, the formatters and the calendar are pure functions, with lemmas
  about them.
- An age is the signed number of whole years from the birth date to today,
  rounded toward zero. This is `Calendar.WholeYears`, which is specified by
  anniversaries. The calendar module models the two library algorithms the source
  uses and proves each equal to `WholeYears`:
  - Java's `Period.between(...).getYears()`;
  - date-fns's `differenceInYears`.

Behaviour of the code that a reader of the number format might not expect:

- **Day code of legacy numbers.** The day code of a legacy number is characters 2
  to 4, read as a decimal number. The browser decodes "850010123V" as a man born
  1985-01-01 (`NicValidation.ExampleLegacyMale`), "855010123v" as a woman born on
  the same day (`NicValidation.ExampleLegacyFemale`), and "850510123V" as a man born
  1985-02-20 (`NicValidation.ExampleDayFiftyOne`).
- **Years 0000–0099.** The browser builds the date with `new Date(year, 0)`. That
  maps the years 0–99 to 1900–1999 (`NicValidation.JsFullYear`). So the browser
  rejects every twelve-digit number of the years 0000–0099 whose day code is in
  range (a code in 1–866 whose effective day is at most 366) with "Invalid birth
  date calculation." (`NicValidation.EarlyYearsRejected`). Codes out of range get
  the earlier messages instead, such as "Invalid days in NIC." for code 000. The
  browser never decodes year 0000 as year 0. The server accepts these numbers when
  the day exists in the year as written
  (`DecoderComparison.EarlyYearsOnlyOnServer`).
- **Century of legacy numbers.** The browser reads every legacy number as 1900 plus
  its two digits. The server reads the suffixes 00–29 as 2000–2029
  (`NicRecordService.LegacyCentury`). So the two halves date such numbers a century
  apart (`DecoderComparison.LegacyCenturyApart`). They even disagree on acceptance
  for day 366 of "00": 1900 is not a leap year, 2000 is
  (`DecoderComparison.LeapDayOfYearZeroZero`).
- **Failures in the record store.** `fetchRecords` records its error and, unlike the
  other remote operations of the store, does not re-raise it
  (`NicStore.NicStore.FetchRecords`).

## Model

Paths are relative to the repository root. `nicValidation.ts` is
`Frontend/src/utils/nicValidation.ts`; the Java services live under
`Backend/nic-validation/src/main/java/com/nic/nic/validation/`.

The `DecoderComparison` rows use two conditions:

- **canonical** (`DecoderComparison.Canonical`): the number is exactly twelve
  digits, or nine digits and an upper-case V or X. It has no surrounding blanks,
  so the two trimming rules (ECMAScript and Java) and upper-casing leave it as it is.
- **same year**: a current number of year 0100 or later, or a legacy number with
  suffix 30–99. Both decoders read such a number as the same birth year.

| member | source | states |
|---|---|---|
| Text.DigitsValue | Frontend/src/utils/nicValidation.ts:36-41 | the value of a digit string (`parseInt` in base 10) is below 10^length |
| Text.NatToString | Backend/nic-validation/src/main/java/com/nic/nic/validation/util/ReportUtils.java:27 | the decimal numeral of a natural number is non-empty digits, has no leading zero, and reads back as the number |
| Text.IntToString | Backend/nic-validation/src/main/java/com/nic/nic/validation/util/ReportUtils.java:25-31 | `toString` of an integer is an optional minus sign followed by the numeral of its magnitude, with no leading zero |
| Text.ZeroPadValue | Backend/nic-validation/src/main/java/com/nic/nic/validation/util/ReportUtils.java:15 | left padding with zeros to a field width keeps a numeral's value and makes it exactly that wide |
| Text.PadNumeral | Backend/nic-validation/src/main/java/com/nic/nic/validation/util/ReportUtils.java:15 | a zero-padded numeral is digits worth the number, at least as wide as the field |
| Text.DigitsInjective | Backend/nic-validation/src/main/java/com/nic/nic/validation/util/ReportUtils.java:15 | two digit strings of the same length and value are equal, so a fixed-width field has one text per value |
| Text.Trim | Backend/nic-validation/src/main/java/com/nic/nic/validation/service/NicRecordService.java:46 | trimming removes exactly the leading and trailing blank characters: the result is a slice of the input, everything cut off is blank, and the result's ends are not |
| Calendar.DayOfYear | Frontend/src/utils/nicValidation.ts:72-75 | the ordinal day of a valid date lies between 1 and the length of its year |
| Calendar.OrdinalToDate | Backend/nic-validation/src/main/java/com/nic/nic/validation/service/NicRecordService.java:79 | day n of year y (`ofYearDay`) is a valid date of year y whose ordinal day is n |
| Calendar.OrdinalRoundTrip | Backend/nic-validation/src/main/java/com/nic/nic/validation/service/NicRecordService.java:79 | converting a date to its ordinal day and back gives the same date |
| Calendar.OrdinalInjective | Backend/nic-validation/src/main/java/com/nic/nic/validation/service/NicRecordService.java:79 | different ordinal days of a year are different dates |
| Calendar.LastOrdinalDay | Backend/nic-validation/src/main/java/com/nic/nic/validation/service/NicRecordService.java:75-79 | day 366 exists exactly in leap years |
| Calendar.MonthsFillYear | Backend/nic-validation/src/main/java/com/nic/nic/validation/service/NicRecordService.java:79 | the twelve month lengths add up to the year length |
| Calendar.WholeYears | Backend/nic-validation/src/main/java/com/nic/nic/validation/service/NicRecordService.java:98-100 | the age is the number of anniversaries of the birth date reached by today (not yet the next one); when today is earlier it is the negated count the other way round |
| Calendar.ElapsedYears | Backend/nic-validation/src/main/java/com/nic/nic/validation/service/NicRecordService.java:98-100 | for a later date, the whole years are the anniversary count reached and not exceeded |
| Calendar.WholeYearsUnique | Backend/nic-validation/src/main/java/com/nic/nic/validation/service/NicRecordService.java:98-100 | the anniversary bracket determines the whole years uniquely |
| Calendar.WholeYearsAntisymmetric | Backend/nic-validation/src/main/java/com/nic/nic/validation/service/ValidationService.java:51-53 | swapping the two dates negates the whole years |
| Calendar.PeriodYears | Backend/nic-validation/src/main/java/com/nic/nic/validation/service/NicRecordService.java:99 | `Period.between(dob, today).getYears()`, computed with Java's month arithmetic and truncating division, equals the whole years on valid dates |
| Calendar.DifferenceInYears | Frontend/src/utils/nicValidation.ts:86 | `differenceInYears(today, dob)`, computed with date-fns's algorithm, equals the whole years |
| Calendar.ParseIsoDate | Frontend/src/store/nicStore.ts:65 | a date text that parses is ten characters with dashes at 4 and 7 and names a valid date of the years 0–9999 |
| Calendar.IsoText | Backend/nic-validation/src/main/java/com/nic/nic/validation/util/ReportUtils.java:15 | the "YYYY-MM-DD" text of a date of the years 0–9999 is ten characters with dashes at 4 and 7 and parses back as the date |
| Calendar.ParsedIsIsoText | Frontend/src/store/nicStore.ts:65 | the only text that parses as a date is that date's own "YYYY-MM-DD" text |
| NicValidation.EncodedYear | Frontend/src/utils/nicValidation.ts:34-42 | a legacy number's year lies in 1900–1999 and a current number's in 0–9999 (which year exactly is stated by `NicValidation.EraOfShape`) |
| NicValidation.JsFullYear | Frontend/src/utils/nicValidation.ts:72 | `new Date(y, 0)` lands in 1900 + y for y in 0–99 and in y otherwise, so its year is never 0–99 |
| NicValidation.DayCode | Frontend/src/utils/nicValidation.ts:37-41 | the day code is the three digits after the year, at most 999 |
| NicValidation.JsJanuaryDay | Frontend/src/utils/nicValidation.ts:72-73 | `new Date(y, 0)` then `setDate(days)` stays in year y exactly when the year has that many days, and is then that ordinal day; otherwise (day 366 of a common year) it is January 1st of year y + 1 |
| NicValidation.ValidateNic | Frontend/src/utils/nicValidation.ts:13-96 | the result is valid exactly when it has no error; it has no type exactly when it carries the format error; a valid result has a type, a gender, a valid birth date and the whole years to today as its age |
| NicValidation.FormatRejected | Frontend/src/utils/nicValidation.ts:14-28 | input of neither shape after trimming is rejected with the format message, no type and no fields |
| NicValidation.EraOfShape | Frontend/src/utils/nicValidation.ts:30-42 | a ten-character number is typed "old" and dated in the 1900s; a twelve-digit one is typed "new" and dated in the year of its first four digits |
| NicValidation.DayCodeOutOfRange | Frontend/src/utils/nicValidation.ts:44-53 | a day code outside 1–866 is rejected with "Invalid days in NIC." and the type kept |
| NicValidation.EncodedDayOutOfRange | Frontend/src/utils/nicValidation.ts:55-70 | codes 367–500 are rejected with "Invalid birth date encoded." |
| NicValidation.ValidIff | Frontend/src/utils/nicValidation.ts:13-96 | a number is accepted exactly when it has a valid shape, its code is in 1–866, its effective day is in 1–366 and exists in its year, and its year is not 0–99 |
| NicValidation.AcceptedContents | Frontend/src/utils/nicValidation.ts:55-95 | an accepted number is FEMALE exactly when its code exceeds 500; its birth date is the effective ordinal day of the encoded year; its age is the whole years to today; it carries the upper-cased number and no error |
| NicValidation.PopulatedIffValid | Frontend/src/utils/nicValidation.ts:19-95 | gender, birth date and age are present exactly when the number is accepted, and an error exactly when it is not |
| NicValidation.NormalisedNumber | Frontend/src/utils/nicValidation.ts:94 | the normalised number differs from the trimmed input at most in the legacy letter, which becomes V or X |
| NicValidation.LeapDayBoundary | Frontend/src/utils/nicValidation.ts:72-84 | for an encoded year of 100 or later, effective day 366 is accepted as December 31st in a leap year, and otherwise rejected with "Invalid birth date calculation." |
| NicValidation.EarlyYearsRejected | Frontend/src/utils/nicValidation.ts:72-84 | a current number of year 0000–0099 with an in-range day is always rejected with "Invalid birth date calculation." |
| NicValidation.LegacyAccepted | Frontend/src/utils/nicValidation.ts:34-95 | a legacy number whose code names a day of its year is dated that ordinal day, gendered by its code, and normalised with its letter upper-cased |
| NicValidation.UpperLegacy | Frontend/src/utils/nicValidation.ts:94 | upper-casing a legacy number changes at most its letter |
| NicValidation.ExampleLegacyMale | Frontend/src/utils/nicValidation.ts:34-42 | every legacy number beginning 85001 (such as "850010123V") is a man born 1985-01-01 |
| NicValidation.ExampleLegacyFemale | Frontend/src/utils/nicValidation.ts:55-94 | every legacy number beginning 85501 and ending in "v" (such as "855010123v") is a woman born 1985-01-01, normalised with "V" |
| NicValidation.ExampleDayFiftyOne | Frontend/src/utils/nicValidation.ts:72-73 | every legacy number beginning 85051 (such as "850510123V") is a man born 1985-02-20 |
| NicValidation.ExampleCodeFiveHundred | Frontend/src/utils/nicValidation.ts:61-70 | every current number with code 500 (such as "198450010123") is rejected as badly encoded |
| NicValidation.ExampleGarbage | Frontend/src/utils/nicValidation.ts:19-28 | "abcdefghi1" is rejected with the format message |
| Repository.Table.FindByNicNumber | Backend/nic-validation/src/main/java/com/nic/nic/validation/repository/NicRecordRepository.java:11 | the lookup finds a row exactly when the number is stored, and then it is that number's row |
| Repository.Table.ExistsByNicNumber | Backend/nic-validation/src/main/java/com/nic/nic/validation/service/ValidationService.java:24 | the number is reported as stored exactly when the lookup by number finds a row |
| Repository.Table.FindAll | Backend/nic-validation/src/main/java/com/nic/nic/validation/service/ValidationService.java:42 | the listing holds every stored number once, with its row, in listing order |
| Repository.Table.Save | Backend/nic-validation/src/main/java/com/nic/nic/validation/service/NicRecordService.java:34-40 | saving replaces the row of a stored number or appends a new number; no other row changes and every key stays listed once |
| Repository.UniqueKeysCount | Backend/nic-validation/src/main/java/com/nic/nic/validation/service/ValidationService.java:41-48 | a duplicate-free listing of the keys is as long as the table |
| NicRecordService.NormalizeNic | Backend/nic-validation/src/main/java/com/nic/nic/validation/service/NicRecordService.java:45-47 | null normalises to ""; otherwise the result is the input trimmed of characters up to U+0020 and upper-cased, so it is no longer than the input, has no such character at either end, and has no lower-case letter |
| NicRecordService.BirthYear | Backend/nic-validation/src/main/java/com/nic/nic/validation/service/NicRecordService.java:61-66 | a current number's year is 0–9999; a legacy number's year is 1930–2029 |
| NicRecordService.DayCode | Backend/nic-validation/src/main/java/com/nic/nic/validation/service/NicRecordService.java:62-67 | the day code is the three digits after the year, at most 999 |
| NicRecordService.OfYearDay | Backend/nic-validation/src/main/java/com/nic/nic/validation/service/NicRecordService.java:79 | `ofYearDay` succeeds exactly when the day exists in the year, giving that ordinal day of that year; otherwise it throws a DateTimeException |
| NicRecordService.UpperShapes | Backend/nic-validation/src/main/java/com/nic/nic/validation/service/NicRecordService.java:45-55 | after upper-casing, a number matches `\d{12}` exactly when it is twelve digits, and `\d{9}[VX]` exactly when it is nine digits and one of v, V, x, X |
| NicRecordService.CalculateAgeFromDob | Backend/nic-validation/src/main/java/com/nic/nic/validation/service/NicRecordService.java:98-100 | on valid dates the age is `Period.between(dob, today).getYears()`, computed with Java's algorithm |
| NicRecordService.ExtractDob | Backend/nic-validation/src/main/java/com/nic/nic/validation/service/NicRecordService.java:57-80 | the date is extracted exactly when the number has a valid shape and its corrected day exists in the birth year; it is then the date of that year with that ordinal day |
| NicRecordService.ExtractGender | Backend/nic-validation/src/main/java/com/nic/nic/validation/service/NicRecordService.java:82-96 | codes 1–366 give MALE and 501–866 give FEMALE; every other code throws |
| NicRecordService.BlankRejected | Backend/nic-validation/src/main/java/com/nic/nic/validation/service/NicRecordService.java:21-25 | a number that normalises to blank is refused with "NIC number is empty" |
| NicRecordService.MalformedRejected | Backend/nic-validation/src/main/java/com/nic/nic/validation/service/NicRecordService.java:26-28 | a non-blank number of neither shape is refused, and the message quotes the number as given |
| NicRecordService.Decode | Backend/nic-validation/src/main/java/com/nic/nic/validation/service/NicRecordService.java:20-32 | a decoded record carries the normalised number in a valid shape, a valid date in the birth year, the whole years to today as its age, and MALE or FEMALE |
| NicRecordService.AcceptedIff | Backend/nic-validation/src/main/java/com/nic/nic/validation/service/NicRecordService.java:20-96 | a number is accepted exactly when its normalised form has a valid shape and a male or female code whose day exists in the birth year |
| NicRecordService.RejectionReasons | Backend/nic-validation/src/main/java/com/nic/nic/validation/service/NicRecordService.java:72-79 | a corrected day outside 1–366 throws "Invalid day-of-year in NIC"; day 366 of a common year throws the DateTimeException |
| NicRecordService.AcceptedRecord | Backend/nic-validation/src/main/java/com/nic/nic/validation/service/NicRecordService.java:30-42 | an accepted record carries the normalised number, the gender from the code, the corrected ordinal day of the birth year, and the whole years to today |
| NicRecordService.GenderFollowsDob | Backend/nic-validation/src/main/java/com/nic/nic/validation/service/NicRecordService.java:82-96 | once a birth date is extracted, the gender can always be extracted too (its exception cannot be reached) |
| NicRecordService.LegacyCentury | Backend/nic-validation/src/main/java/com/nic/nic/validation/service/NicRecordService.java:65-66 | legacy suffixes 00–29 are the 2000s and 30–99 the 1900s |
| NicRecordService.NormalizeLegacy | Backend/nic-validation/src/main/java/com/nic/nic/validation/service/NicRecordService.java:45-55 | nine digits and a letter normalise to the digits and the upper-cased letter, which has the legacy shape |
| NicRecordService.LetterCaseIgnored | Backend/nic-validation/src/main/java/com/nic/nic/validation/service/NicRecordService.java:45-55 | "v" and "V" (and "x" and "X") decode alike |
| NicRecordService.SameNormalForm | Backend/nic-validation/src/main/java/com/nic/nic/validation/service/NicRecordService.java:20-31 | two inputs with the same well-shaped normal form decode alike |
| NicRecordService.NicRecordService.ValidateByNic | Backend/nic-validation/src/main/java/com/nic/nic/validation/service/NicRecordService.java:20-43 | the result is the decode; a success upserts exactly the row under the normalised number; a failure leaves the table unchanged |
| NicRecordService.NicRecordService.GetAll | Backend/nic-validation/src/main/java/com/nic/nic/validation/service/NicRecordService.java:102-107 | one record per stored row, in listing order, each with its stored fields |
| ValidationService.CalculateAgeFromNic | Backend/nic-validation/src/main/java/com/nic/nic/validation/service/ValidationService.java:51-53 | on valid dates the age is `Period.between(dob, today).getYears()`, computed with Java's algorithm |
| ValidationService.ToValidation | Backend/nic-validation/src/main/java/com/nic/nic/validation/service/ValidationService.java:36-37 | the transfer object copies the stored fields and sets the age as of today |
| ValidationService.ValidationService.Add | Backend/nic-validation/src/main/java/com/nic/nic/validation/service/ValidationService.java:20-31 | a blank number is refused as empty and a stored number as a duplicate, both leaving the table unchanged; otherwise exactly one row is appended |
| ValidationService.ValidationService.ValidateByNic | Backend/nic-validation/src/main/java/com/nic/nic/validation/service/ValidationService.java:33-39 | the lookup fails with "NIC not found" exactly when the number is not stored; otherwise it returns the stored fields and the age as of today |
| ValidationService.ValidationService.GetAll | Backend/nic-validation/src/main/java/com/nic/nic/validation/service/ValidationService.java:41-49 | one result per stored row, in listing order, each with its stored fields and its age as of today |
| ValidationService.AddThenLookUp | Backend/nic-validation/src/main/java/com/nic/nic/validation/service/ValidationService.java:20-39 | a new number, once added, is found with what was added and its age as of today, and adding it again is refused as a duplicate |
| ReportUtils.FormatString | Backend/nic-validation/src/main/java/com/nic/nic/validation/util/ReportUtils.java:17-19 | "N/A" for null or for a text with nothing above U+0020; otherwise the text unchanged |
| ReportUtils.FormatDate | Backend/nic-validation/src/main/java/com/nic/nic/validation/util/ReportUtils.java:21-23 | "N/A" for null; for every valid date, the year text, a dash, two digits worth the month, a dash and two digits worth the day; for the years 1–9999 this is the date's "YYYY-MM-DD" text, which reads back as the same date |
| ReportUtils.YearText | Backend/nic-validation/src/main/java/com/nic/nic/validation/util/ReportUtils.java:15 | "yyyy" prints the year of the era: four digits worth it up to 9999, and "+" and its numeral beyond |
| ReportUtils.YearZeroPrintsAsOne | Backend/nic-validation/src/main/java/com/nic/nic/validation/util/ReportUtils.java:15 | "yyyy" prints the year of the era, so year 0 prints as "0001" |
| ReportUtils.FormatAge | Backend/nic-validation/src/main/java/com/nic/nic/validation/util/ReportUtils.java:25-38 | a known age is printed as its decimal numeral; otherwise the whole years from the birth date are printed; "N/A" when both are null; no numeral has a leading zero |
| NicStore.KeepIdentified | Frontend/src/store/nicStore.ts:153 | the filter is no longer than its input, every record it keeps carries a non-empty number, it keeps a list whose records all carry one unchanged, and it empties a list where none does |
| NicStore.KeepIdentifiedAppend | Frontend/src/store/nicStore.ts:153 | filtering a concatenation is concatenating the filtered parts, so order and repetition are kept |
| NicStore.KeepIdentifiedMembers | Frontend/src/store/nicStore.ts:153 | a record is kept exactly when it is in the input and carries a non-empty number |
| NicStore.FromServer | Frontend/src/store/nicStore.ts:144-152 | the record built from a server record is valid with no error, typed "old" exactly for a ten-character number and "new" otherwise, copies the gender, age and number, and has a birth date exactly when the date text is non-empty and names a valid date |
| NicStore.JsDateIff | Frontend/src/store/nicStore.ts:65 | a date text is read as a date exactly when it is that date's "YYYY-MM-DD" text, for a valid date of the years 0–9999 |
| NicStore.FilterAfterMap | Frontend/src/store/nicStore.ts:143-153 | filtering the built records is the same as building records from the server items that carry a number |
| NicStore.FetchedRecords | Frontend/src/store/nicStore.ts:141-153 | the build fails with the null-read TypeError exactly when some item is null; otherwise every record is valid and carries a number |
| NicStore.FetchCount | Frontend/src/store/nicStore.ts:141-158 | for an array of server records, the fetched records are exactly those built from the items that carry a number |
| NicStore.ErrorMessage | Frontend/src/store/nicStore.ts:75-81 | the recorded error is the operation's default only for a thrown value that is not an Error; otherwise it is the error's own message or the non-empty message of the response body |
| NicStore.ErrorMessagePreference | Frontend/src/store/nicStore.ts:75-81 | the recorded error prefers the response body's message, then the error's own message, and uses the default only for a thrown value that is not an Error |
| NicStore.AddedRecord | Frontend/src/store/nicStore.ts:61-68 | the added record is valid with no error; its type is the server's when the reply names one, and otherwise "old" exactly for ten characters; its birth date is `JsDate(dob)` (see `NicStore.JsDateIff` for which date that is); its age is today's year minus the birth year when there is a birth date, and absent otherwise |
| NicStore.AddedRecordContents | Frontend/src/store/nicStore.ts:61-68 | the added record is valid, carries the upper-cased number and the given gender, takes the server's type when the reply names one and is otherwise typed "old" exactly for ten characters, has the birth date `JsDate(dob)`, and its age is the difference of calendar years |
| NicStore.NicStore.constructor | Frontend/src/store/nicStore.ts:30-34 | no records, not loading, no messages |
| NicStore.NicStore.AddRecord | Frontend/src/store/nicStore.ts:36-37 | the record goes in front; nothing else changes |
| NicStore.NicStore.ClearRecords | Frontend/src/store/nicStore.ts:38 | the records are emptied; the flags are untouched |
| NicStore.NicStore.SetError | Frontend/src/store/nicStore.ts:39 | only the error changes |
| NicStore.NicStore.SetSuccessMessage | Frontend/src/store/nicStore.ts:40 | only the success message changes |
| NicStore.NicStore.ClearMessages | Frontend/src/store/nicStore.ts:41 | both messages are cleared; the records and loading are untouched |
| NicStore.NicStore.Begin | Frontend/src/store/nicStore.ts:48 | an operation starts loading and clears both messages, keeping the records |
| NicStore.NicStore.Fail | Frontend/src/store/nicStore.ts:75-82 | a failure records the extracted message and stops loading, keeping the records |
| NicStore.NicStore.ValidateAndAddNic | Frontend/src/store/nicStore.ts:43-85 | a non-null reply puts the locally built record in front with the success message; a null reply or a failed request keeps the records, records the error and re-raises; loading always ends |
| NicStore.NicStore.ValidateNic | Frontend/src/store/nicStore.ts:87-131 | a non-null reply puts the record built from it in front and returns it; otherwise the records are kept, the error recorded and the failure re-raised |
| NicStore.NicStore.FetchRecords | Frontend/src/store/nicStore.ts:133-169 | the records are replaced by the fetched records and the message counts them; a null item or a failed request keeps the records and records the error without re-raising |
| NicStore.NicStore.DownloadPdfReport | Frontend/src/store/nicStore.ts:171-200 | success sets "PDF downloaded"; failure records the error and re-raises; the records are unchanged |
| NicStore.NicStore.DownloadExcelReport | Frontend/src/store/nicStore.ts:202-233 | success sets "Excel downloaded"; failure records the error and re-raises; the records are unchanged |
| AuthStore.AuthStore.constructor | Frontend/src/store/authStore.ts:27-31 | signed out, not loading, no error |
| AuthStore.AuthStore.Login | Frontend/src/store/authStore.ts:33-42 | succeeds exactly when both arguments are non-empty, signing in a USER; a failure changes nothing |
| AuthStore.AuthStore.Register | Frontend/src/store/authStore.ts:44-53 | succeeds exactly when all three arguments are non-empty, signing in a USER whose username is the e-mail; a failure changes nothing |
| AuthStore.AuthStore.RegisterViaApi | Frontend/src/store/authStore.ts:55-97 | succeeds exactly when the reply yields a user, who is then signed in; otherwise the error is recorded and the session is left as it was; loading always ends |
| AuthStore.AuthStore.Logout | Frontend/src/store/authStore.ts:99 | signed out; loading and the error untouched |
| AuthStore.AuthStore.SetError | Frontend/src/store/authStore.ts:101 | only the error changes |
| AuthStore.RegisterOutcome | Frontend/src/store/authStore.ts:55-97 | an accepted reply whose body parses registers exactly `RegisteredUser` of its fields; an accepted null body fails with the null read of `username`; an accepted unparseable body fails with the parser's message; a network failure gives its own message; a refused registration always gives a non-empty message; nothing else registers a user |
| AuthStore.ErrorStatusMessage | Frontend/src/store/authStore.ts:70-75 | a refused registration reports the body's message, else "HTTP <status>: Registration failed"; a null body fails reading its message |
| AuthStore.RegisterSucceedsIff | Frontend/src/store/authStore.ts:70-90 | registration succeeds exactly on an accepted reply whose body parses to an object |
| AuthStore.RegisteredUser | Frontend/src/store/authStore.ts:79-88 | each user field comes from the reply when it is non-empty; otherwise the username, the name, the username again as e-mail, and the role "user"; so the role is never empty |
| DecoderComparison.ShapesAgree | Frontend/src/utils/nicValidation.ts:16-17 | the browser's patterns `^\d{12}$` and `^\d{9}[vVxX]$` accept a number exactly when the server's patterns accept its upper-cased form |
| DecoderComparison.BrowserRecord | Frontend/src/utils/nicValidation.ts:55-95 | for a canonical number the browser accepts: the ordinal date, the gender from the code, the age to today, and the number itself |
| DecoderComparison.ServerRecord | Backend/nic-validation/src/main/java/com/nic/nic/validation/service/NicRecordService.java:30-42 | for a canonical number the server accepts: the ordinal date of the birth year, the gender from the code, the age to today, and the number itself |
| DecoderComparison.AcceptAlike | Frontend/src/utils/nicValidation.ts:13-96 | for a canonical number of the same year, the browser accepts it exactly when the server does |
| DecoderComparison.RecordAlike | Backend/nic-validation/src/main/java/com/nic/nic/validation/service/NicRecordService.java:30-42 | for a canonical number of the same year that both accept, they give the same date, gender, age and number |
| DecoderComparison.DecodersAgree | Frontend/src/utils/nicValidation.ts:13-96 | for a canonical number of the same year, the browser and the server accept it alike and, when they do, give the same date, gender, age and number |
| DecoderComparison.LegacyCenturyApart | Backend/nic-validation/src/main/java/com/nic/nic/validation/service/NicRecordService.java:64-66 | a canonical legacy number with suffix 00–29 that both accept is dated 100 years later by the server |
| DecoderComparison.BrowserRejectsLeapDay1900 | Frontend/src/utils/nicValidation.ts:72-84 | the browser rejects a canonical legacy number of suffix 00 with day 366, since 1900 is not a leap year |
| DecoderComparison.ServerAcceptsLeapDay2000 | Backend/nic-validation/src/main/java/com/nic/nic/validation/service/NicRecordService.java:64-79 | the server accepts a legacy number of suffix 00 with day 366, written as its normal form (so every canonical one), as 2000-12-31 |
| DecoderComparison.LeapDayOfYearZeroZero | Backend/nic-validation/src/main/java/com/nic/nic/validation/service/NicRecordService.java:64-79 | a canonical legacy number of suffix 00 with day 366 is rejected by the browser and accepted by the server as 2000-12-31 |
| DecoderComparison.EarlyYearsOnlyOnServer | Backend/nic-validation/src/main/java/com/nic/nic/validation/service/NicRecordService.java:61-63 | a canonical current number of year 0000–0099 whose code names a day that exists in that year is rejected by the browser and accepted by the server, dated in the year as written |

## Left out

- The clock and time zones. Every use of the current date takes a `Date` parameter. A JavaScript `Date` is modelled as its calendar date in local time, so time of day and the shift between UTC and local time are not modelled. As a result the browser's `differenceInYears` and the server's `Period.between` are both whole years between two calendar dates.
- HTTP, axios, `fetch`, JSON, the JWT headers (`getAuthHeaders`), the controllers, the PDF and spreadsheet builders, and `AuthService`. Each reply a store awaits is a parameter (`Remote`, `RegisterReply`).
- Blob creation and the browser download in `downloadPdfReport` and `downloadExcelReport`. Only their effect on the store's flags is modelled.
- Concurrency. Interleaved store operations and concurrent requests to the services are not modelled.
- Database details: generated ids, the `validatedAt` column, column constraints and transactions. `findAll` lists rows in the order their numbers were first saved; the real database promises no order.
- ModelMapper. Mapping between an entity and its transfer object is written out field by field.
- `ValidationService.add` with a null number throws a NullPointerException. Not modelled: the request's number is a string.
- The `catch` in `formatAge`: `Period.between` cannot throw on two valid dates, so that branch is unreachable.
- The "Registration failed" fallback in `registerViaApi`: everything thrown in that `try` is an Error, so it is unreachable.
- The `undefined` reply body in the record store: a reply is either a value or null.
- NicStore.JsDate: reads only the "YYYY-MM-DD" text the server sends. Any other text is an invalid date (None), although JavaScript's `Date` parser would accept more formats.
- NicStore.FetchedRecords: in `fetchRecords`, `new Date(null)` (the epoch) and an invalid date are both an absent birth date (None).
- NicStore.AddedRecordContents: an age computed from an invalid date (NaN) is an absent age (None).
- NicStore.AddedRecord: the same reading of a NaN age as absent (None).
- NicStore.FromServer: the same reading of `new Date(null)` and of an invalid date as an absent birth date (None).
- Text.ToUpper: upper-cases ASCII letters only. Neither decoder's outcome depends on other characters, because every accepted number is ASCII. `addRecord`'s record (`NicStore.AddedRecord`, nicStore.ts:67) upper-cases a number that was never validated, so for a number with non-ASCII letters the model's stored text can differ from the browser's.
- NicStore.AddedRecord: a string's length is its number of characters (code points), while JavaScript's `.length` counts UTF-16 code units. The ten-character test that types a record "old" (nicStore.ts:63 and 147, also `NicStore.FromServer`) can therefore differ for text outside the Basic Multilingual Plane.
- Values of the wrong JSON type in replies (a number where a string is expected, and so on).

