/** The employee list: filtering by department and status, the insertion of
    built-in dummy employees, and the department and filtered statistics. */
module EmployeeList {
  import opened Wrappers
  import opened Records
  import opened Collections

  /** The filter value that keeps everything. */
  const AllValues: string := "ALL"

  // ---------------------------------------------------------------------
  // Filtering

  function DepartmentIs(department: string): Employee -> bool
  {
    (e: Employee) => e.department == department
  }

  function StatusIs(status: string): Employee -> bool
  {
    (e: Employee) => e.status == status
  }

  /** Whether an employee passes both filters. */
  predicate Shown(department: string, status: string, e: Employee)
  {
    (department == AllValues || e.department == department) && (status == AllValues || e.status == status)
  }

  function Visible(department: string, status: string): Employee -> bool
  {
    e => Shown(department, status, e)
  }

  /** The filter effect: by department unless `ALL`, then by status unless
      `ALL`. The result keeps the stored order and holds exactly the
      employees passing both filters; with both filters `ALL` it is the
      whole list. */
  function FilterEmployees(employees: seq<Employee>, department: string, status: string): (r: seq<Employee>)
    ensures Subsequence(r, employees)
    ensures forall e :: e in r <==> e in employees && Shown(department, status, e)
    ensures department == AllValues && status == AllValues ==> r == employees
  {
    SubsequenceReflexive(employees);
    var byDepartment := if department != AllValues then Filter(employees, DepartmentIs(department)) else employees;
    if status != AllValues then
      SubsequenceTransitive(Filter(byDepartment, StatusIs(status)), byDepartment, employees);
      Filter(byDepartment, StatusIs(status))
    else byDepartment
  }

  /** The two filtering stages are one filter by the combined condition. */
  lemma FilterEmployeesIsOneFilter(employees: seq<Employee>, department: string, status: string)
    ensures FilterEmployees(employees, department, status) == Filter(employees, Visible(department, status))
  {
    var byDepartment := if department != AllValues then Filter(employees, DepartmentIs(department)) else employees;
    if department != AllValues {
      if status != AllValues {
        FilterTwice(employees, DepartmentIs(department), StatusIs(status), Visible(department, status));
      } else {
        FilterTwice(employees, DepartmentIs(department), _ => true, Visible(department, status));
        FilterAll(byDepartment, _ => true);
      }
    } else {
      if status != AllValues {
        FilterTwice(employees, _ => true, StatusIs(status), Visible(department, status));
        FilterAll(employees, _ => true);
      } else {
        FilterAll(employees, Visible(department, status));
      }
    }
  }

  // ---------------------------------------------------------------------
  // Dummy employees

  /** The built-in profiles the list can insert for trying the system out. */
  const DummyEmployees: seq<Profile> := [
    Profile("Rajesh Kumar", "MOULDING DEPT. (A & B SHIFT)", Payroll, "MP001"),
    Profile("Priya Sharma", "MOULDING DEPT. (A & B SHIFT)", NonPayroll, "MN001"),
    Profile("Amit Singh", "FOILING & HOT STAMPING DEPT.", Payroll, "FP001"),
    Profile("Sunita Devi", "FOILING & HOT STAMPING DEPT.", NonPayroll, "FN001"),
    Profile("Vikash Yadav", "DAY SHIFT REFILLING DEPT.", Payroll, "RP001"),
    Profile("Kavita Gupta", "DAY SHIFT REFILLING DEPT.", NonPayroll, "RN001"),
    Profile("Ravi Verma", "EXTRUSION DEPT. (A & B SHIFT)", Payroll, "EP001"),
    Profile("Meera Joshi", "EXTRUSION DEPT. (A & B SHIFT)", NonPayroll, "EN001"),
    Profile("Suresh Patel", "PEN ASSEMBLING DEPT.", Payroll, "PP001"),
    Profile("Anita Roy", "PEN ASSEMBLING DEPT.", NonPayroll, "PN001"),
    Profile("Deepak Mishra", "DESPATCH DEPT. DAY SHIFT", Payroll, "DP001"),
    Profile("Rekha Singh", "DESPATCH DEPT. DAY SHIFT", NonPayroll, "DN001"),
    Profile("Manish Agarwal", OfficeStaff, Payroll, "OP001"),
    Profile("Seema Khanna", OfficeStaff, Payroll, "OP002"),
    Profile("Rohit Saxena", OfficeStaff, NonPayroll, "ON001")
  ]

  function ProfileCode(p: Profile): string
  {
    p.employeeId
  }

  /** The dummy profiles carry pairwise distinct codes, each in one of the
      registration form's departments. */
  lemma DummyEmployeesWellFormed()
    ensures forall i, j :: 0 <= i < j < |DummyEmployees| ==> ProfileCode(DummyEmployees[i]) != ProfileCode(DummyEmployees[j])
    ensures forall i :: 0 <= i < |DummyEmployees| ==> DummyEmployees[i].department in Departments
  {
    DummyCodesDistinct();
    DummyDepartmentsKnown();
  }

  lemma DummyCodesDistinct()
    ensures forall i, j :: 0 <= i < j < |DummyEmployees| ==> ProfileCode(DummyEmployees[i]) != ProfileCode(DummyEmployees[j])
  {
  }

  lemma DummyDepartmentsKnown()
    ensures forall i :: 0 <= i < |DummyEmployees| ==> DummyEmployees[i].department in Departments
  {
  }

  /** The insertion adds nothing because every dummy code is stored. */
  datatype DummyError = AllDummiesPresent

  function NotStored(employees: seq<Employee>): Profile -> bool
  {
    (p: Profile) => !HasCode(employees, p.employeeId)
  }

  /** The dummy profiles whose codes are not stored yet, in their order. */
  function MissingDummies(employees: seq<Employee>): seq<Profile>
  {
    Filter(DummyEmployees, NotStored(employees))
  }

  /** Stores profiles under consecutive generated ids and timestamps: the
      stored employees carry exactly the given profiles, in order, the j-th
      under `freshId(j)` and `now(j)`. */
  function EnrolAll(ps: seq<Profile>, freshId: nat -> string, now: nat -> string): (r: seq<Employee>)
    ensures ProfilesOf(r) == ps
    ensures |r| == |ps|
    ensures forall j :: 0 <= j < |ps| ==> ProfileOf(r[j]) == ps[j]
    ensures forall j :: 0 <= j < |ps| ==> r[j].id == freshId(j) && r[j].registeredAt == now(j)
  {
    var r := seq(|ps|, j requires 0 <= j < |ps| => Enrol(ps[j], freshId(j), now(j)));
    assert ProfilesOf(r) == ps by {
      forall j | 0 <= j < |ps| ensures ProfilesOf(r)[j] == ps[j] {
        assert r[j] == Enrol(ps[j], freshId(j), now(j));
      }
    }
    r
  }

  /** `addDummyEmployees`. `freshId(j)` and `now(j)` are the id and the
      clock reading generated for the j-th added employee. It fails, writing nothing, exactly when every dummy
      code is stored; otherwise it appends the missing dummies, in their
      order, after the stored employees. */
  function AddDummyEmployees(employees: seq<Employee>, freshId: nat -> string, now: nat -> string): (r: Result<seq<Employee>, DummyError>)
    ensures r.Failure? <==> forall i :: 0 <= i < |DummyEmployees| ==> HasCode(employees, DummyEmployees[i].employeeId)
    ensures r.Failure? ==> r.error == AllDummiesPresent
    ensures r.Success? ==>
      && |r.value| > |employees|
      && r.value[..|employees|] == employees
      && (forall j :: |employees| <= j < |r.value| ==>
            !HasCode(employees, r.value[j].employeeId) && ProfileOf(r.value[j]) in DummyEmployees)
  {
    var missing := MissingDummies(employees);
    if |missing| == 0 then
      assert forall i :: 0 <= i < |DummyEmployees| ==> HasCode(employees, DummyEmployees[i].employeeId) by {
        forall i | 0 <= i < |DummyEmployees| ensures HasCode(employees, DummyEmployees[i].employeeId) {
          assert DummyEmployees[i] in DummyEmployees;
          assert DummyEmployees[i] !in missing;
        }
      }
      Failure(AllDummiesPresent)
    else
      var added := EnrolAll(missing, freshId, now);
      assert forall j :: 0 <= j < |added| ==> missing[j] in missing;
      Success(employees + added)
  }

  /** The profiles of some stored employees, in order. */
  function ProfilesOf(es: seq<Employee>): seq<Profile>
  {
    seq(|es|, j requires 0 <= j < |es| => ProfileOf(es[j]))
  }

  /** A successful insertion adds exactly the dummy profiles whose codes are
      not stored, in the built-in order, the j-th under the j-th generated id
      and timestamp. */
  lemma AddDummyEmployeesAddsMissing(employees: seq<Employee>, freshId: nat -> string, now: nat -> string)
    requires AddDummyEmployees(employees, freshId, now).Success?
    ensures var es := AddDummyEmployees(employees, freshId, now).value;
      var added := ProfilesOf(es[|employees|..]);
      && Subsequence(added, DummyEmployees)
      && (forall p :: p in added <==> p in DummyEmployees && !HasCode(employees, p.employeeId))
      && (forall j :: |employees| <= j < |es| ==> es[j].id == freshId(j - |employees|) && es[j].registeredAt == now(j - |employees|))
  {
    var es := AddDummyEmployees(employees, freshId, now).value;
    var missing := MissingDummies(employees);
    assert es[|employees|..] == EnrolAll(missing, freshId, now);
    assert ProfilesOf(es[|employees|..]) == missing;
  }

  /** After a successful insertion every dummy code is stored, so a second
      insertion is rejected and writes nothing. */
  lemma AddDummyEmployeesTwiceRejected(employees: seq<Employee>, freshId1: nat -> string, now1: nat -> string, freshId2: nat -> string, now2: nat -> string)
    requires AddDummyEmployees(employees, freshId1, now1).Success?
    ensures AddDummyEmployees(AddDummyEmployees(employees, freshId1, now1).value, freshId2, now2) == Failure(AllDummiesPresent)
  {
    var es := AddDummyEmployees(employees, freshId1, now1).value;
    var missing := MissingDummies(employees);
    forall i | 0 <= i < |DummyEmployees| ensures HasCode(es, DummyEmployees[i].employeeId) {
      var p := DummyEmployees[i];
      if HasCode(employees, p.employeeId) {
        var e :| e in employees && e.employeeId == p.employeeId;
        var k :| 0 <= k < |employees| && employees[k] == e;
        assert es[k] == e;
      } else {
        assert p in missing;
        var j :| 0 <= j < |missing| && missing[j] == p;
        assert es[|employees| + j] == Enrol(p, freshId1(j), now1(j));
      }
    }
  }

  /** Insertion keeps the employee codes unique. */
  lemma AddDummyEmployeesKeepsCodesUnique(employees: seq<Employee>, freshId: nat -> string, now: nat -> string)
    requires EmployeeCodesUnique(employees)
    requires AddDummyEmployees(employees, freshId, now).Success?
    ensures EmployeeCodesUnique(AddDummyEmployees(employees, freshId, now).value)
  {
    var es := AddDummyEmployees(employees, freshId, now).value;
    var missing := MissingDummies(employees);
    DummyEmployeesWellFormed();
    SubsequenceKeepsDistinct(missing, DummyEmployees, ProfileCode);
    var n := |employees|;
    var added := EnrolAll(missing, freshId, now);
    assert es == employees + added;
    assert forall k :: 0 <= k < |added| ==> added[k].employeeId == ProfilesOf(added)[k].employeeId == missing[k].employeeId;
    forall i, j | 0 <= i < j < |es| ensures es[i].employeeId != es[j].employeeId {
      if j >= n {
        assert es[j] == added[j - n];
        if i >= n {
          assert es[i] == added[i - n];
        } else {
          assert missing[j - n] in missing;
          assert es[i] == employees[i];
          assert employees[i] in employees;
        }
      }
    }
  }

  // ---------------------------------------------------------------------
  // Statistics

  /** One department's row of `getDepartmentStats`. */
  datatype DepartmentCount = DepartmentCount(department: string, total: nat, payroll: nat, nonPayroll: nat)

  /** Counts one employee in a row: any status other than `PAYROLL` counts
      as non-payroll. */
  function Bump(c: DepartmentCount, e: Employee): DepartmentCount
  {
    if e.status == Payroll then c.(total := c.total + 1, payroll := c.payroll + 1)
    else c.(total := c.total + 1, nonPayroll := c.nonPayroll + 1)
  }

  /** The row of a department, if there is one. */
  function FindRow(rows: seq<DepartmentCount>, department: string): (r: Option<nat>)
    ensures r.Some? ==> r.value < |rows| && rows[r.value].department == department
    ensures r.None? <==> forall k :: 0 <= k < |rows| ==> rows[k].department != department
    decreases |rows|
  {
    if rows == [] then None
    else if rows[0].department == department then Some(0)
    else match FindRow(rows[1..], department)
      case None => None
      case Some(k) => Some(k + 1)
  }

  /** One step of the `forEach`: bump the employee's department row, opening
      it at the end when the department is new. */
  function CountEmployee(rows: seq<DepartmentCount>, e: Employee): seq<DepartmentCount>
  {
    match FindRow(rows, e.department)
    case Some(k) => rows[k := Bump(rows[k], e)]
    case None => rows + [Bump(DepartmentCount(e.department, 0, 0, 0), e)]
  }

  /** `getDepartmentStats`, rows in order of first appearance: no department
      has two rows, and each row's total splits into payroll and
      non-payroll. */
  function DepartmentStats(employees: seq<Employee>): (r: seq<DepartmentCount>)
    ensures forall i, j :: 0 <= i < j < |r| ==> r[i].department != r[j].department
    ensures forall k :: 0 <= k < |r| ==> r[k].total == r[k].payroll + r[k].nonPayroll
    decreases |employees|
  {
    if employees == [] then []
    else
      var n := |employees| - 1;
      var e := employees[n];
      assert employees == employees[..n] + [e];
      CountEmployee(DepartmentStats(employees[..n]), e)
  }

  predicate HasRow(rows: seq<DepartmentCount>, department: string)
  {
    exists k :: 0 <= k < |rows| && rows[k].department == department
  }

  predicate Staffed(employees: seq<Employee>, department: string)
  {
    exists k :: 0 <= k < |employees| && employees[k].department == department
  }

  lemma StaffedSnoc(employees: seq<Employee>, e: Employee, department: string)
    ensures Staffed(employees + [e], department) <==> Staffed(employees, department) || e.department == department
  {
    var all := employees + [e];
    if Staffed(all, department) {
      var k :| 0 <= k < |all| && all[k].department == department;
      if k < |employees| {
        assert employees[k] == all[k];
      }
    }
    if Staffed(employees, department) {
      var k :| 0 <= k < |employees| && employees[k].department == department;
      assert all[k] == employees[k];
    }
    if e.department == department {
      assert all[|employees|] == e;
    }
  }

  lemma CountEmployeeRows(rows: seq<DepartmentCount>, e: Employee, department: string)
    ensures HasRow(CountEmployee(rows, e), department) <==> HasRow(rows, department) || e.department == department
  {
    var r := CountEmployee(rows, e);
    assert forall k :: 0 <= k < |rows| ==> r[k].department == rows[k].department;
    match FindRow(rows, e.department)
    case None =>
      assert r[|rows|].department == e.department;
    case Some(k) =>
      assert r[k].department == e.department;
  }

  /** There is a row for a department exactly when some employee is in it. */
  lemma {:induction false} DepartmentStatsRows(employees: seq<Employee>, department: string)
    ensures HasRow(DepartmentStats(employees), department) <==> Staffed(employees, department)
    decreases |employees|
  {
    if employees != [] {
      var n := |employees| - 1;
      var pre := employees[..n];
      var e := employees[n];
      assert employees == pre + [e];
      DepartmentStatsRows(pre, department);
      StaffedSnoc(pre, e, department);
      CountEmployeeRows(DepartmentStats(pre), e, department);
    }
  }

  function RowTotal(c: DepartmentCount): nat
  {
    c.total
  }

  lemma CountEmployeeTotal(rows: seq<DepartmentCount>, e: Employee)
    ensures Sum(CountEmployee(rows, e), RowTotal) == Sum(rows, RowTotal) + 1
  {
    match FindRow(rows, e.department)
    case Some(k) => SumUpdate(rows, k, Bump(rows[k], e), RowTotal);
    case None => SumSnoc(rows, Bump(DepartmentCount(e.department, 0, 0, 0), e), RowTotal);
  }

  /** The row totals add up to the number of employees. */
  lemma {:induction false} DepartmentStatsCoverAll(employees: seq<Employee>)
    ensures Sum(DepartmentStats(employees), RowTotal) == |employees|
    decreases |employees|
  {
    if employees != [] {
      var n := |employees| - 1;
      DepartmentStatsCoverAll(employees[..n]);
      CountEmployeeTotal(DepartmentStats(employees[..n]), employees[n]);
    }
  }

  function InDepartmentWithStatus(department: string, status: string): Employee -> bool
  {
    (e: Employee) => e.department == department && e.status == status
  }

  function InDepartmentOtherThan(department: string, status: string): Employee -> bool
  {
    (e: Employee) => e.department == department && e.status != status
  }

  /** The counts a department's row should hold. */
  predicate RowCounts(employees: seq<Employee>, c: DepartmentCount)
  {
    && c.total == Count(employees, DepartmentIs(c.department))
    && c.payroll == Count(employees, InDepartmentWithStatus(c.department, Payroll))
    && c.nonPayroll == Count(employees, InDepartmentOtherThan(c.department, Payroll))
  }

  /** Counting one more employee keeps a correct row correct: bumped when it
      is the employee's department, unchanged otherwise. */
  lemma BumpCounts(pre: seq<Employee>, e: Employee, c: DepartmentCount)
    requires RowCounts(pre, c)
    ensures RowCounts(pre + [e], if c.department == e.department then Bump(c, e) else c)
  {
    CountSnoc(pre, e, DepartmentIs(c.department));
    CountSnoc(pre, e, InDepartmentWithStatus(c.department, Payroll));
    CountSnoc(pre, e, InDepartmentOtherThan(c.department, Payroll));
  }

  /** The row opened for a department nobody was in counts the new employee
      alone. */
  lemma NewRowCounts(pre: seq<Employee>, e: Employee)
    requires !Staffed(pre, e.department)
    ensures RowCounts(pre + [e], Bump(DepartmentCount(e.department, 0, 0, 0), e))
  {
    var d := e.department;
    FilterNone(pre, DepartmentIs(d));
    FilterNone(pre, InDepartmentWithStatus(d, Payroll));
    FilterNone(pre, InDepartmentOtherThan(d, Payroll));
    CountSnoc(pre, e, DepartmentIs(d));
    CountSnoc(pre, e, InDepartmentWithStatus(d, Payroll));
    CountSnoc(pre, e, InDepartmentOtherThan(d, Payroll));
  }

  /** One step of the `forEach` keeps every row correct, provided the rows
      have distinct departments and a missing row means a department nobody
      was in. */
  lemma CountEmployeeCounts(pre: seq<Employee>, rows: seq<DepartmentCount>, e: Employee)
    requires forall i, j :: 0 <= i < j < |rows| ==> rows[i].department != rows[j].department
    requires forall k :: 0 <= k < |rows| ==> RowCounts(pre, rows[k])
    requires HasRow(rows, e.department) || !Staffed(pre, e.department)
    ensures forall k :: 0 <= k < |CountEmployee(rows, e)| ==> RowCounts(pre + [e], CountEmployee(rows, e)[k])
  {
    var r := CountEmployee(rows, e);
    forall k | 0 <= k < |rows| ensures RowCounts(pre + [e], r[k]) {
      BumpCounts(pre, e, rows[k]);
      match FindRow(rows, e.department)
      case Some(i) =>
        if k != i {
          assert rows[k].department != e.department;
        }
      case None =>
    }
    if FindRow(rows, e.department).None? {
      NewRowCounts(pre, e);
    }
  }

  /** Each row of `getDepartmentStats` against the employees counted one by
      one: the department's employees, those on payroll, and the rest. */
  lemma {:induction false} DepartmentStatsCounts(employees: seq<Employee>)
    ensures forall k :: 0 <= k < |DepartmentStats(employees)| ==> RowCounts(employees, DepartmentStats(employees)[k])
    decreases |employees|
  {
    if employees != [] {
      var n := |employees| - 1;
      var pre := employees[..n];
      var e := employees[n];
      assert employees == pre + [e];
      DepartmentStatsCounts(pre);
      DepartmentStatsRows(pre, e.department);
      CountEmployeeCounts(pre, DepartmentStats(pre), e);
    }
  }

  /** The summary of the filtered list. */
  datatype FilteredCount = FilteredCount(total: nat, payroll: nat, nonPayroll: nat)

  /** `getFilteredStats`: it counts the two statuses by exact match, so
      employees with another status are in neither count. Each count is the
      number of rows the status filter would show; the two never exceed the
      total, and make it up when every status is one of the two. */
  function FilteredStats(filtered: seq<Employee>): (r: FilteredCount)
    ensures r.total == |filtered|
    ensures r.payroll == |FilterEmployees(filtered, AllValues, Payroll)|
    ensures r.nonPayroll == |FilterEmployees(filtered, AllValues, NonPayroll)|
    ensures r.payroll + r.nonPayroll <= r.total
    ensures (forall k :: 0 <= k < |filtered| ==> filtered[k].status == Payroll || filtered[k].status == NonPayroll) ==>
      r.payroll + r.nonPayroll == r.total
  {
    CountDisjoint(filtered, StatusIs(Payroll), StatusIs(NonPayroll));
    FilteredCount(|filtered|, Count(filtered, StatusIs(Payroll)), Count(filtered, StatusIs(NonPayroll)))
  }

  /** Whatever the statuses, the filtered counts of the list narrowed to a
      department agree with its row on the total and on payroll; the
      filtered non-payroll count, which matches `NON PAYROLL` exactly, is at
      most the row's, which takes every other status. */
  lemma StatisticsAgreeOnPayroll(employees: seq<Employee>, k: nat)
    requires k < |DepartmentStats(employees)|
    requires DepartmentStats(employees)[k].department != AllValues
    ensures var row := DepartmentStats(employees)[k];
      var f := FilteredStats(FilterEmployees(employees, row.department, AllValues));
      && f.total == row.total
      && f.payroll == row.payroll
      && f.nonPayroll <= row.nonPayroll
  {
    var row := DepartmentStats(employees)[k];
    var d := row.department;
    DepartmentStatsCounts(employees);
    assert RowCounts(employees, row);
    var narrowed := Filter(employees, DepartmentIs(d));
    assert FilterEmployees(employees, d, AllValues) == narrowed;
    FilterTwice(employees, DepartmentIs(d), StatusIs(Payroll), InDepartmentWithStatus(d, Payroll));
    FilterTwice(employees, DepartmentIs(d), StatusIs(NonPayroll), InDepartmentWithStatus(d, NonPayroll));
    CountMonotonic(employees, InDepartmentWithStatus(d, NonPayroll), InDepartmentOtherThan(d, Payroll));
  }

  /** The two statistics agree on a department when every status is one of
      the two the forms offer: the filtered counts of the list narrowed to
      that department are its row of the department statistics. */
  lemma StatisticsAgree(employees: seq<Employee>, k: nat)
    requires k < |DepartmentStats(employees)|
    requires DepartmentStats(employees)[k].department != AllValues
    requires forall j :: 0 <= j < |employees| ==> employees[j].status == Payroll || employees[j].status == NonPayroll
    ensures var row := DepartmentStats(employees)[k];
      FilteredStats(FilterEmployees(employees, row.department, AllValues))
        == FilteredCount(row.total, row.payroll, row.nonPayroll)
  {
    var row := DepartmentStats(employees)[k];
    var d := row.department;
    StatisticsAgreeOnPayroll(employees, k);
    DepartmentStatsCounts(employees);
    assert RowCounts(employees, row);
    FilterTwice(employees, DepartmentIs(d), StatusIs(NonPayroll), InDepartmentWithStatus(d, NonPayroll));
    FilterAgree(employees, InDepartmentWithStatus(d, NonPayroll), InDepartmentOtherThan(d, Payroll));
  }
}
