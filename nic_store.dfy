/**
 * The client-side record store (useNicStore): the records shown to the user,
 * most recent first, and the loading / error / success flags that every remote
 * operation drives through the same protocol: start (loading, both messages
 * cleared), then success (not loading, a success message) or failure (not
 * loading, an error message, records untouched). The remote reply of each
 * operation is a parameter.
 */
module NicStore {
  import opened Wrappers
  import opened Text
  import opened Calendar
  import opened NicValidation

  /** A value thrown while awaiting a remote call. */
  datatype Failure =
    | AxiosError(responseMessage: Option<string>, message: string)  // a failed request: the body's `message`, if any, and the error's own message
    | PlainError(message: string)                                   // any other Error
    | NonError                                                      // a thrown value that is not an Error

  /** How an awaited remote call ended. */
  datatype Remote<T> = Ok(payload: T) | Failed(failure: Failure)

  /** What the caller of an operation sees: normal completion or the re-raised failure. */
  datatype Completion = Completed | Raised(failure: Failure)

  /** The body of a successful add; only its `type` is read. */
  datatype AddReply = AddReply(nicType: Option<string>)

  /** A record as the validate and list endpoints send it. */
  datatype ServerRecord = ServerRecord(nicNumber: Option<string>, gender: Option<string>, dob: Option<string>, age: Option<int>)

  /** The body of the list endpoint: an array, or a single value wrapped into one. `None` is null. */
  datatype ListBody = ArrayBody(items: seq<Option<ServerRecord>>) | SingleBody(item: Option<ServerRecord>)

  const NullResponse := "Received null response from server"
  const NullRead := "Cannot read properties of null (reading 'nicNumber')"
  const AddedMessage := "NIC added successfully"
  const ValidatedMessage := "NIC validated"
  const PdfMessage := "PDF downloaded"
  const ExcelMessage := "Excel downloaded"
  const AddDefault := "Failed to added NIC"
  const ValidateDefault := "Validation failed"
  const FetchDefault := "Failed to fetch records"
  const PdfDefault := "Failed to download PDF"
  const ExcelDefault := "Failed to download Excel"

  /**
   * The error an operation records: the response body's message when it is a
   * non-empty string, else the error's own message, else the operation's default.
   */
  function ErrorMessage(failure: Failure, fallback: string): (r: string)
    ensures failure.NonError? ==> r == fallback
    ensures !failure.NonError? ==>
      r == failure.message || (failure.AxiosError? && Some(r) == failure.responseMessage && r != "")
  {
    match failure
    case AxiosError(responseMessage, message) => if Truthy(responseMessage) then responseMessage.value else message
    case PlainError(message) => message
    case NonError => fallback
  }

  /** `new Date(s)`, for the "yyyy-MM-dd" text the server sends; anything else is no date. */
  function JsDate(s: string): (r: Option<Date>)
    ensures r.Some? ==> ValidDate(r.value) && 0 <= r.value.year <= 9999
    ensures r.Some? ==> |s| == 10 && s[4] == '-' && s[7] == '-'
  {
    ParseIsoDate(s)
  }

  /** A date text is read as a date exactly when it is that date's "YYYY-MM-DD" text. */
  lemma JsDateIff(s: string, d: Date)
    ensures JsDate(s) == Some(d) <==> ValidDate(d) && 0 <= d.year <= 9999 && s == IsoText(d)
  {
    if JsDate(s) == Some(d) {
      ParsedIsIsoText(s);
    }
  }

  function AddedRecord(nicNumber: string, dob: string, gender: string, reply: AddReply, today: Date): (r: NicData)
    ensures r.isValid && r.error == None
    ensures r.nicType.Some? && r.nicType.value != ""
    ensures r.birthDate.Some? <==> ParseIsoDate(dob).Some?
    ensures r.age.Some? <==> r.birthDate.Some?
    ensures r.birthDate == JsDate(dob)
    ensures r.age == (if r.birthDate.Some? then Some(today.year - r.birthDate.value.year) else None)
    ensures Truthy(reply.nicType) ==> r.nicType == reply.nicType
  {
    var birthDate := JsDate(dob);
    NicData(
      true,
      Some(if Truthy(reply.nicType) then reply.nicType.value else if |nicNumber| == 10 then OldType else NewType),
      Some(gender),
      birthDate,
      if birthDate.Some? then Some(today.year - birthDate.value.year) else None,
      None,
      Some(ToUpper(nicNumber)))
  }

  /** The record built from a server record, by validateNic and by fetchRecords. */
  function FromServer(item: ServerRecord): (r: NicData)
    ensures r.isValid && r.error == None
    ensures r.nicType == Some(OldType) <==> item.nicNumber.Some? && |item.nicNumber.value| == 10
    ensures r.nicType == Some(OldType) || r.nicType == Some(NewType)
    ensures r.gender == item.gender && r.age == item.age && r.originalNic == item.nicNumber
    ensures r.birthDate.Some? <==> Truthy(item.dob) && ParseIsoDate(item.dob.value).Some?
    ensures r.birthDate.Some? ==> r.birthDate == ParseIsoDate(item.dob.value) && ValidDate(r.birthDate.value)
  {
    NicData(
      true,
      Some(if item.nicNumber.Some? && |item.nicNumber.value| == 10 then OldType else NewType),
      item.gender,
      if Truthy(item.dob) then JsDate(item.dob.value) else None,
      item.age,
      None,
      item.nicNumber)
  }

  /** The records that carry a non-empty original number, in order (the `.filter`). */
  function KeepIdentified(records: seq<NicData>): (r: seq<NicData>)
    ensures |r| <= |records|
    ensures forall i :: 0 <= i < |r| ==> Truthy(r[i].originalNic)
    ensures (forall i :: 0 <= i < |records| ==> Truthy(records[i].originalNic)) ==> r == records
    ensures (forall i :: 0 <= i < |records| ==> !Truthy(records[i].originalNic)) ==> r == []
  {
    if records == [] then []
    else
      var rest := KeepIdentified(records[1..]);
      if Truthy(records[0].originalNic) then [records[0]] + rest else rest
  }

  /** The filter keeps exactly the records that carry a non-empty number. */
  lemma {:induction false} KeepIdentifiedMembers(records: seq<NicData>)
    ensures forall x :: x in KeepIdentified(records) <==> x in records && Truthy(x.originalNic)
  {
    if records != [] {
      KeepIdentifiedMembers(records[1..]);
      assert records == [records[0]] + records[1..];
    }
  }

  /** The filter works piecewise: filtering a concatenation concatenates the filtered parts, keeping their order. */
  lemma {:induction false} KeepIdentifiedAppend(a: seq<NicData>, b: seq<NicData>)
    ensures KeepIdentified(a + b) == KeepIdentified(a) + KeepIdentified(b)
  {
    if a != [] {
      assert (a + b)[1..] == a[1..] + b;
      KeepIdentifiedAppend(a[1..], b);
    } else {
      assert a + b == b;
    }
  }

  /** The server records that carry a non-empty number, in order. */
  function Identified(items: seq<ServerRecord>): seq<ServerRecord>
  {
    if items == [] then []
    else if Truthy(items[0].nicNumber) then [items[0]] + Identified(items[1..])
    else Identified(items[1..])
  }

  function MapFromServer(items: seq<ServerRecord>): (r: seq<NicData>)
    ensures |r| == |items| && forall i :: 0 <= i < |items| ==> r[i] == FromServer(items[i])
  {
    seq(|items|, i requires 0 <= i < |items| => FromServer(items[i]))
  }

  /** Mapping then filtering on the built record is filtering the server records, then mapping. */
  lemma {:induction false} FilterAfterMap(items: seq<ServerRecord>)
    ensures KeepIdentified(MapFromServer(items)) == MapFromServer(Identified(items))
  {
    if items != [] {
      var mapped := MapFromServer(items);
      var tail := MapFromServer(items[1..]);
      assert mapped[1..] == tail;
      assert mapped[0].originalNic == items[0].nicNumber;
      FilterAfterMap(items[1..]);
      if Truthy(items[0].nicNumber) {
        calc {
          KeepIdentified(mapped);
          [mapped[0]] + KeepIdentified(tail);
          [FromServer(items[0])] + MapFromServer(Identified(items[1..]));
          MapFromServer([items[0]] + Identified(items[1..]));
        }
      } else {
        assert KeepIdentified(mapped) == KeepIdentified(tail);
      }
    }
  }

  /** The items of a list body: an array as it is, anything else as a one-item array. */
  function RawItems(body: ListBody): seq<Option<ServerRecord>>
  {
    match body
    case ArrayBody(items) => items
    case SingleBody(item) => [item]
  }

  /**
   * The records fetchRecords builds, or the TypeError it throws when an item is null.
   */
  function FetchedRecords(body: ListBody): (r: Result<seq<NicData>, Failure>)
    ensures r.Failure? <==> None in RawItems(body)
    ensures r.Failure? ==> r.error == PlainError(NullRead)
    ensures r.Success? ==> forall x :: x in r.value ==> x.isValid && Truthy(x.originalNic)
  {
    var raw := RawItems(body);
    if None in raw then Failure(PlainError(NullRead))
    else
      var items := seq(|raw|, i requires 0 <= i < |raw| && raw[i].Some? => raw[i].value);
      KeepIdentifiedMembers(MapFromServer(items));
      Success(KeepIdentified(MapFromServer(items)))
  }

  class NicStore {
    var records: seq<NicData>
    var loading: bool
    var error: Option<string>
    var successMessage: Option<string>

    constructor ()
      ensures records == [] && !loading && error == None && successMessage == None
    {
      records := [];
      loading := false;
      error := None;
      successMessage := None;
    }

    /** addRecord: the record goes in front; nothing else changes. */
    method AddRecord(record: NicData)
      modifies this
      ensures records == [record] + old(records)
      ensures loading == old(loading) && error == old(error) && successMessage == old(successMessage)
    {
      records := [record] + records;
    }

    /** clearRecords */
    method ClearRecords()
      modifies this
      ensures records == []
      ensures loading == old(loading) && error == old(error) && successMessage == old(successMessage)
    {
      records := [];
    }

    /** setError */
    method SetError(e: Option<string>)
      modifies this
      ensures error == e
      ensures records == old(records) && loading == old(loading) && successMessage == old(successMessage)
    {
      error := e;
    }

    /** setSuccessMessage */
    method SetSuccessMessage(message: Option<string>)
      modifies this
      ensures successMessage == message
      ensures records == old(records) && loading == old(loading) && error == old(error)
    {
      successMessage := message;
    }

    /** clearMessages: both messages cleared, records and loading untouched. */
    method ClearMessages()
      modifies this
      ensures error == None && successMessage == None
      ensures records == old(records) && loading == old(loading)
    {
      error, successMessage := None, None;
    }

    /** The first step of every remote operation. */
    method Begin()
      modifies this
      ensures loading && error == None && successMessage == None
      ensures records == old(records)
    {
      loading, error, successMessage := true, None, None;
    }

    /** The failure step: the extracted message is recorded and loading ends. */
    method Fail(failure: Failure, fallback: string)
      modifies this
      ensures error == Some(ErrorMessage(failure, fallback)) && !loading
      ensures records == old(records) && successMessage == old(successMessage)
    {
      error, loading := Some(ErrorMessage(failure, fallback)), false;
    }

    /**
     * validateAndAddNic: on a non-null reply the locally built record is put in front;
     * a null reply or a failed request records the error, keeps the records and re-raises.
     */
    method ValidateAndAddNic(nicNumber: string, dob: string, gender: string,
                             reply: Remote<Option<AddReply>>, today: Date) returns (c: Completion)
      modifies this
      ensures !loading
      ensures reply.Ok? && reply.payload.Some? ==>
        && records == [AddedRecord(nicNumber, dob, gender, reply.payload.value, today)] + old(records)
        && error == None && successMessage == Some(AddedMessage) && c == Completed
      ensures reply == Ok(None) ==>
        && records == old(records) && error == Some(NullResponse) && successMessage == None
        && c == Raised(PlainError(NullResponse))
      ensures reply.Failed? ==>
        && records == old(records) && error == Some(ErrorMessage(reply.failure, AddDefault))
        && successMessage == None && c == Raised(reply.failure)
    {
      Begin();
      match reply
      case Ok(Some(data)) =>
        var newRecord := AddedRecord(nicNumber, dob, gender, data, today);
        records, loading, successMessage := [newRecord] + records, false, Some(AddedMessage);
        c := Completed;
      case Ok(None) =>
        Fail(PlainError(NullResponse), AddDefault);
        c := Raised(PlainError(NullResponse));
      case Failed(f) =>
        Fail(f, AddDefault);
        c := Raised(f);
    }

    /**
     * validateNic: on a non-null reply the record built from it is put in front and
     * returned; otherwise the error is recorded, the records kept and the failure re-raised.
     */
    method ValidateNic(inputNic: string, reply: Remote<Option<ServerRecord>>) returns (r: Result<NicData, Failure>)
      modifies this
      ensures !loading
      ensures reply.Ok? && reply.payload.Some? ==>
        && r == Success(FromServer(reply.payload.value))
        && records == [r.value] + old(records)
        && error == None && successMessage == Some(ValidatedMessage)
      ensures reply == Ok(None) ==>
        && records == old(records) && error == Some(NullResponse) && successMessage == None
        && r == Failure(PlainError(NullResponse))
      ensures reply.Failed? ==>
        && records == old(records) && error == Some(ErrorMessage(reply.failure, ValidateDefault))
        && successMessage == None && r == Failure(reply.failure)
    {
      Begin();
      match reply
      case Ok(Some(data)) =>
        var validationResult := FromServer(data);
        records, loading, successMessage := [validationResult] + records, false, Some(ValidatedMessage);
        r := Success(validationResult);
      case Ok(None) =>
        Fail(PlainError(NullResponse), ValidateDefault);
        r := Failure(PlainError(NullResponse));
      case Failed(f) =>
        Fail(f, ValidateDefault);
        r := Failure(f);
    }

    /**
     * fetchRecords: the records are replaced by the identified records of the reply and
     * the success message counts them; a failure is recorded and not re-raised.
     */
    method FetchRecords(reply: Remote<ListBody>)
      modifies this
      ensures !loading
      ensures reply.Ok? && FetchedRecords(reply.payload).Success? ==>
        && records == FetchedRecords(reply.payload).value
        && error == None
        && successMessage == Some(NatToString(|records|) + " records loaded")
      ensures reply.Ok? && FetchedRecords(reply.payload).Failure? ==>
        && records == old(records) && error == Some(NullRead) && successMessage == None
      ensures reply.Failed? ==>
        && records == old(records) && error == Some(ErrorMessage(reply.failure, FetchDefault))
        && successMessage == None
    {
      Begin();
      var outcome := if reply.Ok? then FetchedRecords(reply.payload) else Failure(reply.failure);
      match outcome
      case Success(fetched) =>
        records, loading, successMessage := fetched, false, Some(NatToString(|fetched|) + " records loaded");
      case Failure(f) =>
        Fail(f, FetchDefault);
    }

    /** downloadPdfReport, without the browser download: flags only. */
    method DownloadPdfReport(reply: Remote<()>) returns (c: Completion)
      modifies this
      ensures !loading && records == old(records)
      ensures reply.Ok? ==> error == None && successMessage == Some(PdfMessage) && c == Completed
      ensures reply.Failed? ==>
        error == Some(ErrorMessage(reply.failure, PdfDefault)) && successMessage == None && c == Raised(reply.failure)
    {
      Begin();
      match reply
      case Ok(_) =>
        loading, successMessage := false, Some(PdfMessage);
        c := Completed;
      case Failed(f) =>
        Fail(f, PdfDefault);
        c := Raised(f);
    }

    /** downloadExcelReport, without the browser download: flags only. */
    method DownloadExcelReport(reply: Remote<()>) returns (c: Completion)
      modifies this
      ensures !loading && records == old(records)
      ensures reply.Ok? ==> error == None && successMessage == Some(ExcelMessage) && c == Completed
      ensures reply.Failed? ==>
        error == Some(ErrorMessage(reply.failure, ExcelDefault)) && successMessage == None && c == Raised(reply.failure)
    {
      Begin();
      match reply
      case Ok(_) =>
        loading, successMessage := false, Some(ExcelMessage);
        c := Completed;
      case Failed(f) =>
        Fail(f, ExcelDefault);
        c := Raised(f);
    }
  }

  /**
   * The message recorded on failure prefers the response body's message, then the
   * error's own message, and falls back to the operation's default only for a value
   * that is not an Error.
   */
  lemma ErrorMessagePreference(failure: Failure, fallback: string)
    ensures failure.AxiosError? && Truthy(failure.responseMessage) ==>
      ErrorMessage(failure, fallback) == failure.responseMessage.value
    ensures failure.AxiosError? && !Truthy(failure.responseMessage) ==>
      ErrorMessage(failure, fallback) == failure.message
    ensures failure.PlainError? ==> ErrorMessage(failure, fallback) == failure.message
    ensures failure.NonError? ==> ErrorMessage(failure, fallback) == fallback
  {
  }

  /**
   * The record an add puts in front: valid, the number upper-cased, the gender as given,
   * typed "old" for a 10-character number and "new" otherwise unless the server names a type.
   */
  lemma AddedRecordContents(nicNumber: string, dob: string, gender: string, reply: AddReply, today: Date)
    ensures var rec := AddedRecord(nicNumber, dob, gender, reply, today);
      && rec.isValid && rec.gender == Some(gender) && rec.error == None
      && rec.originalNic == Some(ToUpper(nicNumber))
      && (Truthy(reply.nicType) ==> rec.nicType == reply.nicType)
      && (!Truthy(reply.nicType) ==> (rec.nicType == Some(OldType) <==> |nicNumber| == 10))
      && rec.birthDate == JsDate(dob)
      && (rec.birthDate.Some? ==> rec.age == Some(today.year - rec.birthDate.value.year))
  {
  }

  /** The success message of a fetch counts exactly the server records that carry a number. */
  lemma FetchCount(items: seq<ServerRecord>)
    ensures FetchedRecords(ArrayBody(seq(|items|, i requires 0 <= i < |items| => Some(items[i]))))
              == Success(MapFromServer(Identified(items)))
  {
    var raw := seq(|items|, i requires 0 <= i < |items| => Some(items[i]));
    assert None !in raw;
    var back := seq(|raw|, i requires 0 <= i < |raw| && raw[i].Some? => raw[i].value);
    assert back == items;
    FilterAfterMap(items);
  }
}
