/** Registration of a single employee: every field is required and the
    human-chosen `employeeId` code must not already be stored. */
module EmployeeRegistration {
  import opened Wrappers
  import opened Records

  datatype RegistrationError = MissingField | DuplicateEmployeeId

  /** Some field of the form is empty. */
  predicate HasEmptyField(p: Profile)
  {
    p.name == "" || p.department == "" || p.status == "" || p.employeeId == ""
  }

  /** `handleSubmit`. A failure leaves the stored employees as they were; a
      success appends the enrolled form under the given id and time. */
  function Register(employees: seq<Employee>, form: Profile, freshId: string, now: string): (r: Result<seq<Employee>, RegistrationError>)
    ensures HasEmptyField(form) ==> r == Failure(MissingField)
    ensures !HasEmptyField(form) && HasCode(employees, form.employeeId) ==> r == Failure(DuplicateEmployeeId)
    ensures r.Success? <==> !HasEmptyField(form) && !HasCode(employees, form.employeeId)
    ensures r.Success? ==>
      && |r.value| == |employees| + 1
      && r.value[..|employees|] == employees
      && ProfileOf(r.value[|employees|]) == form
      && r.value[|employees|].id == freshId
      && r.value[|employees|].registeredAt == now
  {
    if HasEmptyField(form) then Failure(MissingField)
    else if exists e :: e in employees && e.employeeId == form.employeeId then Failure(DuplicateEmployeeId)
    else Success(employees + [Enrol(form, freshId, now)])
  }

  /** Registration keeps the employee codes unique. */
  lemma RegisterKeepsCodesUnique(employees: seq<Employee>, form: Profile, freshId: string, now: string)
    requires EmployeeCodesUnique(employees)
    requires Register(employees, form, freshId, now).Success?
    ensures EmployeeCodesUnique(Register(employees, form, freshId, now).value)
  {
    var es := Register(employees, form, freshId, now).value;
    forall i, j | 0 <= i < j < |es|
      ensures es[i].employeeId != es[j].employeeId
    {
      if j == |employees| {
        assert es[i] == employees[i];
        assert employees[i] in employees;
      }
    }
  }

  /** With an id not already used, registration keeps the employee ids unique. */
  lemma RegisterKeepsIdsUnique(employees: seq<Employee>, form: Profile, freshId: string, now: string)
    requires EmployeeIdsUnique(employees)
    requires forall j :: 0 <= j < |employees| ==> employees[j].id != freshId
    requires Register(employees, form, freshId, now).Success?
    ensures EmployeeIdsUnique(Register(employees, form, freshId, now).value)
  {
    var es := Register(employees, form, freshId, now).value;
    forall i, j | 0 <= i < j < |es|
      ensures es[i].id != es[j].id
    {
      if j == |employees| {
        assert es[i] == employees[i];
      }
    }
  }

  /** Submitting the same form twice registers it once: the second
      submission is rejected as a duplicate and writes nothing. */
  lemma RegisterTwiceRejected(employees: seq<Employee>, form: Profile, id1: string, now1: string, id2: string, now2: string)
    requires Register(employees, form, id1, now1).Success?
    ensures Register(Register(employees, form, id1, now1).value, form, id2, now2) == Failure(DuplicateEmployeeId)
  {
    var es := Register(employees, form, id1, now1).value;
    assert es[|employees|] in es;
  }
}
