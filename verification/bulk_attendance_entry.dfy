/** The bulk attendance form: select employees by department or status, then
    apply one shared entry to each of them with the single form's
    insert-or-update rule, counting added and updated records. */
module BulkAttendanceEntry {
  import opened Wrappers
  import opened Records
  import opened AttendanceRules
  import opened Collections

  /** Which employee field the selection compares. */
  datatype FilterType = ByDepartment | ByStatus

  /** Whether the selection takes the employee. */
  predicate Selects(filterType: FilterType, value: string, e: Employee)
  {
    if filterType.ByDepartment? then e.department == value else e.status == value
  }

  function Selector(filterType: FilterType, value: string): Employee -> bool
  {
    e => Selects(filterType, value, e)
  }

  /** The employee-filter effect: nothing is selected until a filter value is
      chosen; then exactly the matching employees, in their stored order. */
  function SelectEmployees(employees: seq<Employee>, filterType: FilterType, value: string): (r: seq<Employee>)
    ensures value == "" ==> r == []
    ensures value != "" ==> Subsequence(r, employees)
    ensures value != "" ==> forall e :: e in r <==> e in employees && Selects(filterType, value, e)
  {
    if value == "" then [] else Filter(employees, Selector(filterType, value))
  }

  /** A non-empty filter value selects every occurrence of a matching
      employee and no other; with the order above this pins the selection. */
  lemma SelectionMultiplicity(employees: seq<Employee>, filterType: FilterType, value: string)
    requires value != ""
    ensures forall e :: multiset(SelectEmployees(employees, filterType, value))[e]
                     == if Selects(filterType, value, e) then multiset(employees)[e] else 0
  {
    FilterMultiplicity(employees, Selector(filterType, value));
  }

  function EmployeeKey(e: Employee): string
  {
    e.id
  }

  /** Employees with distinct ids stay distinct after selection. */
  lemma SelectionKeepsIdsUnique(employees: seq<Employee>, filterType: FilterType, value: string)
    requires EmployeeIdsUnique(employees)
    ensures EmployeeIdsUnique(SelectEmployees(employees, filterType, value))
  {
    if value != "" {
      SubsequenceKeepsDistinct(SelectEmployees(employees, filterType, value), employees, EmployeeKey);
    }
  }

  /** The form state: the date and the shared defaults. */
  datatype BulkForm = BulkForm(date: string, defaultInTime: ClockTime, defaultOutTime: ClockTime, defaultStatus: string)

  /** The defaults the form starts with: 09:00 to 18:00 and present. */
  function InitialBulkForm(date: string): BulkForm
  {
    BulkForm(date, At(9 * MinutesPerHour), At(18 * MinutesPerHour), Present)
  }

  /** The shared entry every selected employee receives. */
  function BulkEntry(form: BulkForm): Entry
  {
    Entry(form.defaultInTime, form.defaultOutTime, form.defaultStatus)
  }

  /** The default entry credits factory workers with nine hours and office
      staff with a present day. */
  lemma InitialDefaultsCredit(date: string)
    ensures EntryMinutes(false, BulkEntry(InitialBulkForm(date))) == 9 * MinutesPerHour
    ensures EntryMinutes(true, BulkEntry(InitialBulkForm(date))) == OfficeDayMinutes
  {
  }

  /** The working collection and the two counters of the bulk save. */
  datatype BulkTally = BulkTally(records: seq<AttendanceRecord>, added: nat, updated: nat)

  /** The only reason a bulk save writes nothing. */
  datatype BulkError = EmptySelection

  /** The natural keys a batch writes. */
  function BatchKeys(selection: seq<Employee>, date: string): set<(string, string)>
  {
    set e | e in selection :: (e.id, date)
  }

  /** One iteration of the save loop: the employee's record for the date is
      overwritten in place (keeping `id` and `createdAt`) when one exists,
      counting an update, and appended under the id `stamp + employee.id`
      otherwise, counting an addition. */
  function SaveOne(t: BulkTally, e: Employee, form: BulkForm, stamp: string, now: string): (r: BulkTally)
    ensures r.added + r.updated == t.added + t.updated + 1
    ensures r.updated == t.updated + 1 <==> (e.id, form.date) in Keys(t.records)
    ensures r.added == t.added + 1 <==> (e.id, form.date) !in Keys(t.records)
    ensures r.added >= t.added && |r.records| == |t.records| + (r.added - t.added)
    ensures forall j :: 0 <= j < |t.records| ==>
      r.records[j].id == t.records[j].id && r.records[j].createdAt == t.records[j].createdAt
    ensures forall j :: 0 <= j < |t.records| && Key(t.records[j]) != (e.id, form.date) ==>
      r.records[j] == t.records[j]
    ensures Keys(r.records) == Keys(t.records) + {(e.id, form.date)}
  {
    FindRecordPresent(t.records, e.id, form.date);
    match FindRecord(t.records, e.id, form.date)
    case Some(k) =>
      var rec := MakeRecord(e, form.date, BulkEntry(form), t.records[k].id, t.records[k].createdAt);
      var rs := t.records[k := rec];
      assert Keys(rs) == Keys(t.records) by {
        forall x | x in Keys(t.records) ensures x in Keys(rs) {
          var r :| r in t.records && Key(r) == x;
          var j :| 0 <= j < |t.records| && t.records[j] == r;
          if j == k { assert Key(rs[k]) == x; } else { assert rs[j] == r; }
        }
      }
      BulkTally(rs, t.added, t.updated + 1)
    case None =>
      var rs := t.records + [MakeRecord(e, form.date, BulkEntry(form), stamp + e.id, now)];
      assert Keys(rs) == Keys(t.records) + {(e.id, form.date)} by {
        assert rs[|t.records|] in rs;
        forall x | x in Keys(t.records) ensures x in Keys(rs) {
          var r :| r in t.records && Key(r) == x;
          assert r in rs;
        }
      }
      BulkTally(rs, t.added + 1, t.updated)
  }

  /** The `forEach` of the save handler over the selection, left to right.
      Every selected employee has a record for the date afterwards, the
      counters account for each selected employee once, only appended
      records lengthen the collection, and records already stored keep
      their place, `id` and `createdAt` (and their contents, when no selected
      employee writes their key). */
  function SaveAll(attendance: seq<AttendanceRecord>, selection: seq<Employee>, form: BulkForm, stamp: string, now: string): (r: BulkTally)
    ensures r.added + r.updated == |selection|
    ensures |r.records| == |attendance| + r.added
    ensures forall j :: 0 <= j < |attendance| ==>
      r.records[j].id == attendance[j].id && r.records[j].createdAt == attendance[j].createdAt
    ensures forall j :: 0 <= j < |attendance| && Key(attendance[j]) !in BatchKeys(selection, form.date) ==>
      r.records[j] == attendance[j]
    decreases |selection|
  {
    if selection == [] then BulkTally(attendance, 0, 0)
    else
      var n := |selection| - 1;
      BatchKeysSnoc(selection, form.date);
      SaveOne(SaveAll(attendance, selection[..n], form, stamp, now), selection[n], form, stamp, now)
  }

  lemma BatchKeysSnoc(selection: seq<Employee>, date: string)
    requires selection != []
    ensures BatchKeys(selection, date)
         == BatchKeys(selection[..|selection| - 1], date) + {(selection[|selection| - 1].id, date)}
  {
    assert selection == selection[..|selection| - 1] + [selection[|selection| - 1]];
  }

  /** After a batch the collection holds exactly the keys it held before and
      the keys of the batch. */
  lemma {:induction false} SaveAllKeys(
    attendance: seq<AttendanceRecord>, selection: seq<Employee>, form: BulkForm, stamp: string, now: string)
    ensures Keys(SaveAll(attendance, selection, form, stamp, now).records)
         == Keys(attendance) + BatchKeys(selection, form.date)
    decreases |selection|
  {
    if selection != [] {
      var n := |selection| - 1;
      SaveAllKeys(attendance, selection[..n], form, stamp, now);
      BatchKeysSnoc(selection, form.date);
    }
  }

  /** A batch is its prefix followed by one more iteration. */
  lemma SaveAllLast(attendance: seq<AttendanceRecord>, selection: seq<Employee>, form: BulkForm, stamp: string, now: string)
    requires selection != []
    ensures var n := |selection| - 1;
      SaveAll(attendance, selection, form, stamp, now)
        == SaveOne(SaveAll(attendance, selection[..n], form, stamp, now), selection[n], form, stamp, now)
  {
  }

  /** One more iteration of the loop saves one more selected employee. */
  lemma SaveAllStep(
    attendance: seq<AttendanceRecord>, selection: seq<Employee>, i: nat, form: BulkForm, stamp: string, now: string)
    requires i < |selection|
    ensures SaveAll(attendance, selection[..i + 1], form, stamp, now)
         == SaveOne(SaveAll(attendance, selection[..i], form, stamp, now), selection[i], form, stamp, now)
  {
    assert selection[..i + 1][..i] == selection[..i];
  }

  /** `handleBulkSave`. An empty selection is reported and nothing is
      written; otherwise the selection is saved one employee at a time,
      and the result is the collection to write back with the two counts
      the success message shows. */
  method HandleBulkSave(
    employees: seq<Employee>, filterType: FilterType, filterValue: string,
    attendance: seq<AttendanceRecord>, form: BulkForm, stamp: string, now: string
  ) returns (r: Result<BulkTally, BulkError>)
    ensures r.Failure? <==> SelectEmployees(employees, filterType, filterValue) == []
    ensures r.Failure? ==> r.error == EmptySelection
    ensures r.Success? ==> r.value == SaveAll(attendance, SelectEmployees(employees, filterType, filterValue), form, stamp, now)
    ensures r.Success? ==> r.value.added + r.value.updated == |SelectEmployees(employees, filterType, filterValue)|
    ensures r.Success? ==> |r.value.records| == |attendance| + r.value.added
  {
    var selection := SelectEmployees(employees, filterType, filterValue);
    if |selection| == 0 {
      return Failure(EmptySelection);
    }
    var records := attendance;
    var added := 0;
    var updated := 0;
    var i := 0;
    while i < |selection|
      invariant 0 <= i <= |selection|
      invariant BulkTally(records, added, updated) == SaveAll(attendance, selection[..i], form, stamp, now)
    {
      SaveAllStep(attendance, selection, i, form, stamp, now);
      var t := SaveOne(BulkTally(records, added, updated), selection[i], form, stamp, now);
      records, added, updated := t.records, t.added, t.updated;
      i := i + 1;
    }
    assert selection[..i] == selection;
    return Success(BulkTally(records, added, updated));
  }

  /** Saving one employee keeps at most one record per (employee, date). */
  lemma SaveOnePreservesNaturalKey(t: BulkTally, e: Employee, form: BulkForm, stamp: string, now: string)
    requires NaturalKeyUnique(t.records)
    ensures NaturalKeyUnique(SaveOne(t, e, form, stamp, now).records)
  {
    var r := SaveOne(t, e, form, stamp, now);
    match FindRecord(t.records, e.id, form.date)
    case Some(k) =>
      assert r.records == t.records[k := r.records[k]];
      assert Key(r.records[k]) == Key(t.records[k]);
    case None =>
      assert r.records == t.records + [r.records[|t.records|]];
      assert Key(r.records[|t.records|]) == (e.id, form.date);
  }

  /** Saving a batch keeps at most one record per (employee, date). */
  lemma {:induction false} SaveAllPreservesNaturalKey(
    attendance: seq<AttendanceRecord>, selection: seq<Employee>, form: BulkForm, stamp: string, now: string)
    requires NaturalKeyUnique(attendance)
    ensures NaturalKeyUnique(SaveAll(attendance, selection, form, stamp, now).records)
    decreases |selection|
  {
    if selection != [] {
      var n := |selection| - 1;
      SaveAllPreservesNaturalKey(attendance, selection[..n], form, stamp, now);
      SaveOnePreservesNaturalKey(SaveAll(attendance, selection[..n], form, stamp, now), selection[n], form, stamp, now);
    }
  }

  /** Saving a batch writes only records of the entry forms' shape. */
  lemma {:induction false} SaveAllKeepsRecordsWellShaped(
    attendance: seq<AttendanceRecord>, selection: seq<Employee>, form: BulkForm, stamp: string, now: string)
    requires AllWellShaped(attendance)
    ensures AllWellShaped(SaveAll(attendance, selection, form, stamp, now).records)
    decreases |selection|
  {
    if selection != [] {
      var n := |selection| - 1;
      SaveAllKeepsRecordsWellShaped(attendance, selection[..n], form, stamp, now);
      var t := SaveAll(attendance, selection[..n], form, stamp, now);
      var e := selection[n];
      var r := SaveOne(t, e, form, stamp, now);
      match FindRecord(t.records, e.id, form.date)
      case Some(k) =>
        assert r.records == t.records[k := r.records[k]];
        assert WellShaped(r.records[k]);
      case None =>
        var rs := r.records;
        var rec := MakeRecord(e, form.date, BulkEntry(form), stamp + e.id, now);
        assert rs == t.records + [rec];
        forall j | 0 <= j < |rs| ensures WellShaped(rs[j]) {
          if j < |t.records| {
            assert rs[j] == t.records[j];
          } else {
            assert rs[j] == rec;
          }
        }
    }
  }

  /** When every key of the batch is already present, the batch adds nothing
      and updates every selected employee. */
  lemma {:induction false} SaveAllOverPresentKeys(
    attendance: seq<AttendanceRecord>, selection: seq<Employee>, form: BulkForm, stamp: string, now: string)
    requires BatchKeys(selection, form.date) <= Keys(attendance)
    ensures SaveAll(attendance, selection, form, stamp, now).added == 0
    ensures SaveAll(attendance, selection, form, stamp, now).updated == |selection|
    decreases |selection|
  {
    if selection != [] {
      var n := |selection| - 1;
      assert selection == selection[..n] + [selection[n]];
      assert BatchKeys(selection[..n], form.date) <= BatchKeys(selection, form.date);
      SaveAllOverPresentKeys(attendance, selection[..n], form, stamp, now);
      SaveAllKeys(attendance, selection[..n], form, stamp, now);
      var t := SaveAll(attendance, selection[..n], form, stamp, now);
      assert (selection[n].id, form.date) in BatchKeys(selection, form.date);
      FindRecordPresent(t.records, selection[n].id, form.date);
    }
  }

  /** Re-running a batch for the same date adds no record and updates all
      of the selected employees. */
  lemma RerunAddsNothing(
    attendance: seq<AttendanceRecord>, selection: seq<Employee>, form: BulkForm,
    stamp1: string, now1: string, stamp2: string, now2: string)
    ensures var first := SaveAll(attendance, selection, form, stamp1, now1);
      var second := SaveAll(first.records, selection, form, stamp2, now2);
      second.added == 0 && second.updated == |selection| && |second.records| == |first.records|
  {
    var first := SaveAll(attendance, selection, form, stamp1, now1);
    SaveAllKeys(attendance, selection, form, stamp1, now1);
    SaveAllOverPresentKeys(first.records, selection, form, stamp2, now2);
  }

  /** A batch whose employees have distinct ids and no record yet for the
      date adds one record per employee and updates none. */
  lemma {:induction false} FreshBatchAddsAll(
    attendance: seq<AttendanceRecord>, selection: seq<Employee>, form: BulkForm, stamp: string, now: string)
    requires EmployeeIdsUnique(selection)
    requires BatchKeys(selection, form.date) !! Keys(attendance)
    ensures SaveAll(attendance, selection, form, stamp, now).added == |selection|
    ensures SaveAll(attendance, selection, form, stamp, now).updated == 0
    decreases |selection|
  {
    if selection != [] {
      var n := |selection| - 1;
      var prefix := selection[..n];
      var e := selection[n];
      assert selection == prefix + [e];
      assert BatchKeys(prefix, form.date) <= BatchKeys(selection, form.date);
      assert EmployeeIdsUnique(prefix);
      FreshBatchAddsAll(attendance, prefix, form, stamp, now);
      SaveAllKeys(attendance, prefix, form, stamp, now);
      var t := SaveAll(attendance, prefix, form, stamp, now);
      forall x | x in prefix ensures x.id != e.id {
        var i :| 0 <= i < n && prefix[i] == x;
        assert selection[i] == x;
      }
      assert (e.id, form.date) !in BatchKeys(prefix, form.date);
      assert (e.id, form.date) in BatchKeys(selection, form.date);
      FindRecordPresent(t.records, e.id, form.date);
    }
  }

  /** The record stored for the employee on the form's date already carries
      the batch's values: saving the employee again would write it back
      unchanged. */
  predicate Settled(rs: seq<AttendanceRecord>, e: Employee, form: BulkForm)
  {
    match FindRecord(rs, e.id, form.date)
    case None => false
    case Some(k) => rs[k] == MakeRecord(e, form.date, BulkEntry(form), rs[k].id, rs[k].createdAt)
  }

  /** Overwriting a record whose key differs from `key` with another such
      record does not move the first record for `key`. */
  lemma FindRecordAfterOverwrite(rs: seq<AttendanceRecord>, k: nat, rec: AttendanceRecord, employeeId: string, date: string)
    requires k < |rs|
    requires Key(rs[k]) != (employeeId, date) && Key(rec) != (employeeId, date)
    ensures FindRecord(rs[k := rec], employeeId, date) == FindRecord(rs, employeeId, date)
    decreases |rs|
  {
    if Key(rs[0]) != (employeeId, date) && k != 0 {
      assert rs[k := rec][1..] == rs[1..][k - 1 := rec];
      FindRecordAfterOverwrite(rs[1..], k - 1, rec, employeeId, date);
    } else if k == 0 {
      assert rs[k := rec][1..] == rs[1..];
    }
  }

  /** Overwriting the first record for a key with a record of the same key
      keeps it the first record for that key. */
  lemma FindRecordAfterOverwriteSame(rs: seq<AttendanceRecord>, k: nat, rec: AttendanceRecord, employeeId: string, date: string)
    requires FindRecord(rs, employeeId, date) == Some(k)
    requires Key(rec) == (employeeId, date)
    ensures FindRecord(rs[k := rec], employeeId, date) == Some(k)
    decreases |rs|
  {
    if k != 0 {
      assert rs[k := rec][1..] == rs[1..][k - 1 := rec];
      FindRecordAfterOverwriteSame(rs[1..], k - 1, rec, employeeId, date);
    }
  }

  /** Appending a record does not move a key that is already present. */
  lemma FindRecordAfterAppend(rs: seq<AttendanceRecord>, rec: AttendanceRecord, employeeId: string, date: string)
    requires FindRecord(rs, employeeId, date).Some?
    ensures FindRecord(rs + [rec], employeeId, date) == FindRecord(rs, employeeId, date)
    decreases |rs|
  {
    if Key(rs[0]) != (employeeId, date) {
      assert (rs + [rec])[1..] == rs[1..] + [rec];
      FindRecordAfterAppend(rs[1..], rec, employeeId, date);
    }
  }

  /** Appending a record for an absent key makes it the first for that key. */
  lemma FindRecordAfterAppendNew(rs: seq<AttendanceRecord>, rec: AttendanceRecord, employeeId: string, date: string)
    requires FindRecord(rs, employeeId, date).None?
    requires Key(rec) == (employeeId, date)
    ensures FindRecord(rs + [rec], employeeId, date) == Some(|rs|)
    decreases |rs|
  {
    if rs != [] {
      assert (rs + [rec])[1..] == rs[1..] + [rec];
      FindRecordAfterAppendNew(rs[1..], rec, employeeId, date);
    }
  }

  /** Saving one employee settles that employee and leaves every other
      employee's settled record in place. */
  lemma SaveOneSettles(t: BulkTally, e: Employee, others: seq<Employee>, form: BulkForm, stamp: string, now: string)
    requires forall i :: 0 <= i < |others| ==> others[i].id != e.id && Settled(t.records, others[i], form)
    ensures var r := SaveOne(t, e, form, stamp, now).records;
      Settled(r, e, form) && forall i :: 0 <= i < |others| ==> Settled(r, others[i], form)
  {
    var r := SaveOne(t, e, form, stamp, now).records;
    match FindRecord(t.records, e.id, form.date)
    case Some(k) =>
      assert r == t.records[k := r[k]];
      forall i | 0 <= i < |others| ensures Settled(r, others[i], form) {
        var x := others[i];
        assert Settled(t.records, x, form);
        var kx := FindRecord(t.records, x.id, form.date);
        assert kx.Some? && kx.value != k;
        FindRecordAfterOverwrite(t.records, k, r[k], x.id, form.date);
      }
      FindRecordAfterOverwriteSame(t.records, k, r[k], e.id, form.date);
    case None =>
      assert r == t.records + [r[|t.records|]];
      forall i | 0 <= i < |others| ensures Settled(r, others[i], form) {
        var x := others[i];
        assert Settled(t.records, x, form);
        FindRecordAfterAppend(t.records, r[|t.records|], x.id, form.date);
      }
      FindRecordAfterAppendNew(t.records, r[|t.records|], e.id, form.date);
  }

  /** After a batch of employees with distinct ids, every selected employee
      is settled. */
  lemma {:induction false} SaveAllSettles(
    attendance: seq<AttendanceRecord>, selection: seq<Employee>, form: BulkForm, stamp: string, now: string)
    requires EmployeeIdsUnique(selection)
    ensures forall i :: 0 <= i < |selection| ==>
      Settled(SaveAll(attendance, selection, form, stamp, now).records, selection[i], form)
    decreases |selection|
  {
    if selection != [] {
      var n := |selection| - 1;
      var prefix := selection[..n];
      var e := selection[n];
      assert selection == prefix + [e];
      assert EmployeeIdsUnique(prefix);
      SaveAllSettles(attendance, prefix, form, stamp, now);
      var t := SaveAll(attendance, prefix, form, stamp, now);
      SaveOneSettles(t, e, prefix, form, stamp, now);
      SaveAllLast(attendance, selection, form, stamp, now);
    }
  }

  /** Saving employees who are all settled writes the collection back as it is. */
  lemma {:induction false} SaveAllSettledIsIdentity(
    rs: seq<AttendanceRecord>, selection: seq<Employee>, form: BulkForm, stamp: string, now: string)
    requires forall i :: 0 <= i < |selection| ==> Settled(rs, selection[i], form)
    ensures SaveAll(rs, selection, form, stamp, now).records == rs
    decreases |selection|
  {
    if selection != [] {
      var n := |selection| - 1;
      SaveAllSettledIsIdentity(rs, selection[..n], form, stamp, now);
      var e := selection[n];
      assert Settled(rs, e, form);
      var t := SaveAll(rs, selection[..n], form, stamp, now);
      assert t.records == rs;
      var k := FindRecord(rs, e.id, form.date).value;
      var rec := MakeRecord(e, form.date, BulkEntry(form), rs[k].id, rs[k].createdAt);
      assert rec == rs[k];
      assert SaveAll(rs, selection, form, stamp, now) == SaveOne(t, e, form, stamp, now);
      assert SaveOne(t, e, form, stamp, now).records == rs[k := rec];
      assert rs[k := rec] == rs;
    }
  }

  /** Re-running a batch of employees with distinct ids on the same date
      leaves the attendance collection exactly as the first run wrote it. */
  lemma RerunIsIdempotent(
    attendance: seq<AttendanceRecord>, selection: seq<Employee>, form: BulkForm,
    stamp1: string, now1: string, stamp2: string, now2: string)
    requires EmployeeIdsUnique(selection)
    ensures var first := SaveAll(attendance, selection, form, stamp1, now1);
      SaveAll(first.records, selection, form, stamp2, now2).records == first.records
  {
    var first := SaveAll(attendance, selection, form, stamp1, now1);
    SaveAllSettles(attendance, selection, form, stamp1, now1);
    SaveAllSettledIsIdentity(first.records, selection, form, stamp2, now2);
  }
}
