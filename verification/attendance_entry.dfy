/** The single attendance form: validation of the selected employee and the
    entered data, then an insert-or-update keyed on (employee, date). */
module AttendanceEntry {
  import opened Wrappers
  import opened Records
  import opened AttendanceRules

  /** The form fields: the date, the two clock times (factory workers) and
      the status code (office staff). */
  datatype AttendanceForm = AttendanceForm(date: string, inTime: ClockTime, outTime: ClockTime, status: string)

  /** The messages the form reports instead of writing. `UnknownEmployee`
      stands for the type error the handler raises when the selected id
      matches no loaded employee; it too ends the handler before the write. */
  datatype EntryError = NoEmployeeSelected | MissingStatus | MissingTimes | UnknownEmployee

  /** `employees.find(emp => emp.id === id)`: the first employee with the id. */
  function FindEmployee(employees: seq<Employee>, id: string): (r: Option<Employee>)
    ensures r.Some? ==> r.value in employees && r.value.id == id
    ensures r.Some? ==> exists k :: 0 <= k < |employees| && employees[k] == r.value
                                    && forall j :: 0 <= j < k ==> employees[j].id != id
    ensures r.None? <==> forall e :: e in employees ==> e.id != id
    decreases |employees|
  {
    if employees == [] then None
    else if employees[0].id == id then Some(employees[0])
    else
      var rest := FindEmployee(employees[1..], id);
      if rest.Some? then
        var k :| 0 <= k < |employees[1..]| && employees[1..][k] == rest.value
                 && forall j :: 0 <= j < k ==> employees[1..][j].id != id;
        assert employees[k + 1] == rest.value;
        assert forall j :: 1 <= j < k + 1 ==> employees[j] == employees[1..][j - 1];
        rest
      else rest
  }

  /** JavaScript's `a || b` on strings: `b` when `a` is empty. */
  function OrElse(a: string, b: string): string
  {
    if a != "" then a else b
  }

  /** The form is treated as office-staff entry exactly when the selected
      id names a loaded employee of the office department. */
  predicate SelectedIsOfficeStaff(employees: seq<Employee>, selected: string)
  {
    var found := FindEmployee(employees, selected);
    found.Some? && IsOfficeStaff(found.value)
  }

  /** The entry part of the form. */
  function EntryOf(form: AttendanceForm): Entry
  {
    Entry(form.inTime, form.outTime, form.status)
  }

  /** `records.map(r => r.id === id ? rec : r)`. */
  function ReplaceById(rs: seq<AttendanceRecord>, id: string, rec: AttendanceRecord): (r: seq<AttendanceRecord>)
    ensures |r| == |rs|
    ensures forall j :: 0 <= j < |rs| ==> r[j] == if rs[j].id == id then rec else rs[j]
  {
    seq(|rs|, j requires 0 <= j < |rs| => if rs[j].id == id then rec else rs[j])
  }

  /** When record ids are unique, replacing by the id of record `k` changes
      record `k` alone. */
  lemma ReplaceByIdIsUpdate(rs: seq<AttendanceRecord>, k: nat, rec: AttendanceRecord)
    requires RecordIdsUnique(rs)
    requires k < |rs|
    ensures ReplaceById(rs, rs[k].id, rec) == rs[k := rec]
  {
    forall j | 0 <= j < |rs| && j != k
      ensures ReplaceById(rs, rs[k].id, rec)[j] == rs[j]
    {
      assert rs[j].id != rs[k].id;
    }
  }

  /** `handleSubmit`. A failure carries no collection: the store is not
      written. On success the result is the new attendance collection:
      the entry is appended when no record has the natural key, and
      otherwise replaces the found record (and any record sharing its id),
      keeping the found record's `id` and `createdAt` unless they are empty. */
  function SubmitAttendance(
    employees: seq<Employee>, attendance: seq<AttendanceRecord>,
    selected: string, form: AttendanceForm, freshId: string, now: string
  ): (r: Result<seq<AttendanceRecord>, EntryError>)
    ensures selected == "" ==> r == Failure(NoEmployeeSelected)
    ensures selected != "" && SelectedIsOfficeStaff(employees, selected) && form.status == "" ==>
      r == Failure(MissingStatus)
    ensures (selected != "" && !SelectedIsOfficeStaff(employees, selected)
             && (form.inTime.Blank? || form.outTime.Blank?)) ==> r == Failure(MissingTimes)
    ensures r.Success? <==>
      && selected != ""
      && FindEmployee(employees, selected).Some?
      && (if SelectedIsOfficeStaff(employees, selected) then form.status != ""
          else form.inTime.At? && form.outTime.At?)
    ensures r.Success? && FindRecord(attendance, selected, form.date).None? ==>
      && |r.value| == |attendance| + 1
      && r.value[..|attendance|] == attendance
      && r.value[|attendance|]
         == MakeRecord(FindEmployee(employees, selected).value, form.date, EntryOf(form), freshId, now)
    ensures r.Success? && FindRecord(attendance, selected, form.date).Some? ==>
      var k := FindRecord(attendance, selected, form.date).value;
      && |r.value| == |attendance|
      && r.value[k] == MakeRecord(FindEmployee(employees, selected).value, form.date, EntryOf(form),
                                  OrElse(attendance[k].id, freshId), OrElse(attendance[k].createdAt, now))
      && (forall j :: 0 <= j < |attendance| && attendance[j].id != attendance[k].id ==>
            r.value[j] == attendance[j])
      && (forall j :: 0 <= j < |attendance| && attendance[j].id == attendance[k].id ==>
            r.value[j] == r.value[k])
  {
    if selected == "" then Failure(NoEmployeeSelected)
    else
      var found := FindEmployee(employees, selected);
      var office := SelectedIsOfficeStaff(employees, selected);
      if office && form.status == "" then Failure(MissingStatus)
      else if !office && (form.inTime.Blank? || form.outTime.Blank?) then Failure(MissingTimes)
      else if found.None? then Failure(UnknownEmployee)
      else
        var e := found.value;
        match FindRecord(attendance, selected, form.date)
        case None =>
          Success(attendance + [MakeRecord(e, form.date, EntryOf(form), freshId, now)])
        case Some(k) =>
          var existing := attendance[k];
          var rec := MakeRecord(e, form.date, EntryOf(form),
                                OrElse(existing.id, freshId), OrElse(existing.createdAt, now));
          Success(ReplaceById(attendance, existing.id, rec))
  }

  /** Every record a successful submission writes has the entry forms'
      shape, provided the earlier records had it. */
  lemma SubmitKeepsRecordsWellShaped(
    employees: seq<Employee>, attendance: seq<AttendanceRecord>,
    selected: string, form: AttendanceForm, freshId: string, now: string)
    requires AllWellShaped(attendance)
    requires SubmitAttendance(employees, attendance, selected, form, freshId, now).Success?
    ensures AllWellShaped(SubmitAttendance(employees, attendance, selected, form, freshId, now).value)
  {
  }

  /** A successful submission keeps the natural key unique and the record
      ids unique, given a fresh id. Uniqueness of ids is needed: the update
      replaces every record carrying the found record's id. */
  lemma SubmitPreservesStoreInvariant(
    employees: seq<Employee>, attendance: seq<AttendanceRecord>,
    selected: string, form: AttendanceForm, freshId: string, now: string)
    requires NaturalKeyUnique(attendance) && RecordIdsUnique(attendance)
    requires forall j :: 0 <= j < |attendance| ==> attendance[j].id != freshId
    requires SubmitAttendance(employees, attendance, selected, form, freshId, now).Success?
    ensures var rs := SubmitAttendance(employees, attendance, selected, form, freshId, now).value;
      NaturalKeyUnique(rs) && RecordIdsUnique(rs)
  {
    var rs := SubmitAttendance(employees, attendance, selected, form, freshId, now).value;
    var found := FindRecord(attendance, selected, form.date);
    if found.Some? {
      var k := found.value;
      ReplaceByIdIsUpdate(attendance, k, rs[k]);
      assert rs == attendance[k := rs[k]];
      assert Key(rs[k]) == Key(attendance[k]);
      assert rs[k].id == attendance[k].id || rs[k].id == freshId;
    }
  }

  /** Submitting the same employee and date twice leaves one record for that
      key: the second submission overwrites the first in place, carrying the
      newer values under the first submission's `id` and `createdAt`, and
      leaves every other record alone. */
  lemma ResubmitKeepsIdentity(
    employees: seq<Employee>, attendance: seq<AttendanceRecord>, selected: string,
    first: AttendanceForm, freshId1: string, now1: string,
    second: AttendanceForm, freshId2: string, now2: string)
    requires NaturalKeyUnique(attendance) && RecordIdsUnique(attendance)
    requires forall j :: 0 <= j < |attendance| ==> attendance[j].id != freshId1
    requires freshId1 != "" && now1 != ""
    requires first.date == second.date
    requires SubmitAttendance(employees, attendance, selected, first, freshId1, now1).Success?
    requires SubmitAttendance(employees, SubmitAttendance(employees, attendance, selected, first, freshId1, now1).value,
                              selected, second, freshId2, now2).Success?
    ensures
      var r1 := SubmitAttendance(employees, attendance, selected, first, freshId1, now1).value;
      var r2 := SubmitAttendance(employees, r1, selected, second, freshId2, now2).value;
      var k := FindRecord(r1, selected, first.date);
      && k.Some?
      && |r2| == |r1|
      && (forall j :: 0 <= j < |r1| && j != k.value ==> r2[j] == r1[j])
      && (forall j :: 0 <= j < |r2| && j != k.value ==> Key(r2[j]) != (selected, first.date))
      && r2[k.value] == MakeRecord(FindEmployee(employees, selected).value, first.date, EntryOf(second),
                                   r1[k.value].id, r1[k.value].createdAt)
  {
    var r1 := SubmitAttendance(employees, attendance, selected, first, freshId1, now1).value;
    SubmitPreservesStoreInvariant(employees, attendance, selected, first, freshId1, now1);
    var k0 := FindRecord(attendance, selected, first.date);
    var j0 := if k0.Some? then k0.value else |attendance|;
    assert Key(r1[j0]) == (selected, first.date);
    assert r1[j0].id != "" && r1[j0].createdAt != "";
    FindRecordFindsOwnKey(r1, j0);
    var k := FindRecord(r1, selected, first.date);
    assert k == Some(j0);
    var r2 := SubmitAttendance(employees, r1, selected, second, freshId2, now2).value;
    forall j | 0 <= j < |r1| && j != j0
      ensures r2[j] == r1[j]
    {
      assert r1[j].id != r1[j0].id;
    }
  }
}
