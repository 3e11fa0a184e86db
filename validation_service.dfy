/**
 * The record table behind manual entry (ValidationService): a uniqueness-checked
 * insert, a lookup by number, and a listing, where both reads recompute the age
 * from the stored date of birth.
 */
module ValidationService {
  import opened Wrappers
  import opened Text
  import opened Calendar
  import opened Repository

  const EmptyError := "NIC number is empty"
  const SavedMessage := "Validation saved successfully"

  function DuplicateError(nic: string): string { "NIC number already exists: " + nic }

  function NotFoundError(nic: string): string { "NIC not found: " + nic }

  /** The stored entity of a number. */
  datatype ValidationRow = ValidationRow(dob: Date, gender: string)

  /** The transfer object: a request to add, or a result with its age filled in. */
  datatype Validation = Validation(nicNumber: string, dob: Date, gender: string, age: Option<int>)

  /** calculateAgeFromNic, with the current date passed in: `Period.between(dob, today).getYears()`. */
  function CalculateAgeFromNic(dob: Date, today: Date): (r: int)
    ensures ValidDate(dob) && ValidDate(today) ==> r == PeriodYears(dob, today)
  {
    WholeYears(dob, today)
  }

  /** The transfer object of a stored row, with the age as of today. */
  function ToValidation(nic: string, row: ValidationRow, today: Date): (v: Validation)
    ensures v.nicNumber == nic && v.dob == row.dob && v.gender == row.gender
    ensures v.age == Some(WholeYears(row.dob, today))
  {
    Validation(nic, row.dob, row.gender, Some(CalculateAgeFromNic(row.dob, today)))
  }

  class ValidationService {
    const repository: Table<ValidationRow>

    ghost predicate Valid()
      reads this, repository
    {
      repository.Valid()
    }

    constructor (repository: Table<ValidationRow>)
      requires repository.Valid()
      ensures Valid() && this.repository == repository
    {
      this.repository := repository;
    }

    /**
     * add: a blank number or one already stored is refused and nothing changes;
     * otherwise exactly one row is added for the new number.
     */
    method Add(request: Validation) returns (r: Result<string, string>)
      requires Valid()
      modifies repository
      ensures Valid()
      ensures JavaIsBlank(request.nicNumber) ==> r == Failure(EmptyError)
      ensures !JavaIsBlank(request.nicNumber) && request.nicNumber in old(repository.rows) ==>
        r == Failure(DuplicateError(request.nicNumber))
      ensures r.Failure? ==> repository.rows == old(repository.rows) && repository.order == old(repository.order)
      ensures !JavaIsBlank(request.nicNumber) && request.nicNumber !in old(repository.rows) ==>
        && r == Success(SavedMessage)
        && repository.rows == old(repository.rows)[request.nicNumber := ValidationRow(request.dob, request.gender)]
        && repository.order == old(repository.order) + [request.nicNumber]
    {
      if request.nicNumber == [] || JavaIsBlank(request.nicNumber) {
        return Failure(EmptyError);
      }
      if repository.ExistsByNicNumber(request.nicNumber) {
        return Failure(DuplicateError(request.nicNumber));
      }
      repository.Save(request.nicNumber, ValidationRow(request.dob, request.gender));
      r := Success(SavedMessage);
    }

    /** validateByNic: the stored row with its age as of today, or "NIC not found". */
    function ValidateByNic(nicNumber: string, today: Date): (r: Result<Validation, string>)
      reads this, repository
      ensures r.Failure? <==> nicNumber !in repository.rows
      ensures r.Failure? ==> r.error == NotFoundError(nicNumber)
      ensures r.Success? ==>
        && r.value.nicNumber == nicNumber
        && r.value.dob == repository.rows[nicNumber].dob
        && r.value.gender == repository.rows[nicNumber].gender
        && r.value.age == Some(WholeYears(r.value.dob, today))
    {
      match repository.FindByNicNumber(nicNumber)
      case None => Failure(NotFoundError(nicNumber))
      case Some(row) => Success(ToValidation(nicNumber, row, today))
    }

    /** getAll: one result per stored row, in listing order, each with its age as of today. */
    function GetAll(today: Date): (r: seq<Validation>)
      reads this, repository
      requires Valid()
      ensures |r| == |repository.rows| == |repository.order|
      ensures forall i :: 0 <= i < |r| ==>
        && r[i].nicNumber == repository.order[i] && r[i].nicNumber in repository.rows
        && r[i].dob == repository.rows[r[i].nicNumber].dob
        && r[i].gender == repository.rows[r[i].nicNumber].gender
        && r[i].age == Some(WholeYears(r[i].dob, today))
    {
      var all := repository.FindAll();
      seq(|all|, i requires 0 <= i < |all| => ToValidation(all[i].0, all[i].1, today))
    }
  }

  /**
   * A new number, added and then looked up, is found with what was added and its age
   * as of today; adding it a second time is refused as a duplicate.
   */
  method AddThenLookUp(service: ValidationService, request: Validation, today: Date)
      returns (added: Result<string, string>, found: Result<Validation, string>, again: Result<string, string>)
    requires service.Valid() && !JavaIsBlank(request.nicNumber)
    requires request.nicNumber !in service.repository.rows
    modifies service.repository
    ensures added == Success(SavedMessage)
    ensures found == Success(Validation(request.nicNumber, request.dob, request.gender, Some(WholeYears(request.dob, today))))
    ensures again == Failure(DuplicateError(request.nicNumber))
    ensures service.repository.rows == old(service.repository.rows)[request.nicNumber := ValidationRow(request.dob, request.gender)]
  {
    added := service.Add(request);
    found := service.ValidateByNic(request.nicNumber, today);
    again := service.Add(request);
  }
}
