/** The monthly report: per-employee counters over the month's records
    (optionally restricted to one department) and per-department summaries
    over all of the month's records. Working time is in minutes. */
module Dashboard {
  import opened Records
  import opened AttendanceRules
  import opened Collections

  /** The department filter value that keeps every department. */
  const AllDepartments: string := "ALL"

  /** One row of the per-employee report. */
  datatype EmployeeStats = EmployeeStats(
    name: string,
    department: string,
    status: string,
    totalMinutes: nat,
    totalDays: nat,
    presentDays: nat,
    leaveDays: nat,
    absentDays: nat)

  /** One row of the per-department summary. */
  datatype DepartmentSummary = DepartmentSummary(
    name: string,
    totalMinutes: nat,
    totalEmployees: nat,
    presentCount: nat,
    leaveCount: nat,
    absentCount: nat)

  /** `record.date.startsWith(month)`. */
  predicate InMonth(month: string, r: AttendanceRecord)
  {
    month <= r.date
  }

  /** The per-employee report's filter. */
  predicate InReport(month: string, department: string, r: AttendanceRecord)
  {
    InMonth(month, r) && (department == AllDepartments || r.department == department)
  }

  function ReportFilter(month: string, department: string): AttendanceRecord -> bool
  {
    r => InReport(month, department, r)
  }

  function MonthFilter(month: string): AttendanceRecord -> bool
  {
    r => InMonth(month, r)
  }

  /** The records a per-employee report reads, in stored order. */
  function ReportRecords(attendance: seq<AttendanceRecord>, month: string, department: string): seq<AttendanceRecord>
  {
    Filter(attendance, ReportFilter(month, department))
  }

  /** The records the department summary reads, in stored order. */
  function MonthRecords(attendance: seq<AttendanceRecord>, month: string): seq<AttendanceRecord>
  {
    Filter(attendance, MonthFilter(month))
  }

  /** The distinct employees among some records. */
  function EmployeeIdsOf(rs: seq<AttendanceRecord>): set<string>
  {
    set r | r in rs :: r.employeeId
  }

  /** The distinct departments among some records. */
  function DepartmentsOf(rs: seq<AttendanceRecord>): set<string>
  {
    set r | r in rs :: r.department
  }

  // ---------------------------------------------------------------------
  // Per-employee report

  /** A record that counts as a worked day: any factory record, or an
      office record with the present code. */
  predicate EarnsDay(r: AttendanceRecord)
  {
    !r.isOfficeStaff || r.attendanceStatus == Present
  }

  predicate OnLeave(r: AttendanceRecord)
  {
    r.isOfficeStaff && r.attendanceStatus == Leave
  }

  predicate IsAbsent(r: AttendanceRecord)
  {
    r.isOfficeStaff && r.attendanceStatus == Absent
  }

  /** The minutes a record contributes to its employee's total: eight hours
      for a present office day, the recorded time for a factory day. */
  function CreditedMinutes(r: AttendanceRecord): nat
  {
    if r.isOfficeStaff then (if r.attendanceStatus == Present then OfficeDayMinutes else 0)
    else r.workingMinutes
  }

  /** The row opened when an employee is first met: the snapshot of that
      record and zero counters. */
  function Opening(r: AttendanceRecord): EmployeeStats
  {
    EmployeeStats(r.employeeName, r.department, r.status, 0, 0, 0, 0, 0)
  }

  /** One step of the per-employee `forEach`. */
  function Credit(s: EmployeeStats, r: AttendanceRecord): EmployeeStats
  {
    if r.isOfficeStaff then
      if r.attendanceStatus == Present then
        s.(totalMinutes := s.totalMinutes + OfficeDayMinutes, totalDays := s.totalDays + 1,
           presentDays := s.presentDays + 1)
      else if r.attendanceStatus == Leave then s.(leaveDays := s.leaveDays + 1)
      else if r.attendanceStatus == Absent then s.(absentDays := s.absentDays + 1)
      else s
    else
      s.(totalMinutes := s.totalMinutes + r.workingMinutes, totalDays := s.totalDays + 1,
         presentDays := s.presentDays + 1)
  }

  /** The per-employee accumulation over some records, left to right: one
      row per distinct employee, each with as many worked days as present
      days. */
  function TallyEmployees(rs: seq<AttendanceRecord>): (m: map<string, EmployeeStats>)
    ensures m.Keys == EmployeeIdsOf(rs)
    ensures forall id :: id in m ==> m[id].totalDays == m[id].presentDays
    decreases |rs|
  {
    if rs == [] then map[]
    else
      var n := |rs| - 1;
      var before := TallyEmployees(rs[..n]);
      var x := rs[n];
      assert rs == rs[..n] + [x];
      EmployeeIdsOfSnoc(rs[..n], x);
      var s := if x.employeeId in before then before[x.employeeId] else Opening(x);
      before[x.employeeId := Credit(s, x)]
  }

  /** `getMonthlyReport`: exactly one row per employee with a record in the
      month (and department, unless the filter is `ALL`). */
  function MonthlyReport(attendance: seq<AttendanceRecord>, month: string, department: string): (m: map<string, EmployeeStats>)
    ensures forall id :: id in m <==>
      exists r :: r in attendance && InReport(month, department, r) && r.employeeId == id
    ensures forall id :: id in m ==> m[id].totalDays == m[id].presentDays
  {
    TallyEmployees(ReportRecords(attendance, month, department))
  }

  /** The records of one employee, in order. */
  function RecordsOf(rs: seq<AttendanceRecord>, id: string): seq<AttendanceRecord>
  {
    Filter(rs, (r: AttendanceRecord) => r.employeeId == id)
  }

  /** A record extends the records of its own employee only. */
  lemma RecordsOfSnoc(rs: seq<AttendanceRecord>, x: AttendanceRecord, id: string)
    ensures RecordsOf(rs + [x], id) == RecordsOf(rs, id) + (if x.employeeId == id then [x] else [])
  {
    FilterSnoc(rs, x, (r: AttendanceRecord) => r.employeeId == id);
  }

  /** One employee's row, crediting their own records in order from a
      starting row; the snapshot fields are never touched. */
  function CreditAll(s: EmployeeStats, rs: seq<AttendanceRecord>): (r: EmployeeStats)
    ensures r.name == s.name && r.department == s.department && r.status == s.status
    decreases |rs|
  {
    if rs == [] then s
    else Credit(CreditAll(s, rs[..|rs| - 1]), rs[|rs| - 1])
  }

  /** Crediting a run of records adds, to each counter, the number of
      records of the matching kind, and to the total the credited minutes. */
  lemma {:induction false} CreditAllCounts(s: EmployeeStats, rs: seq<AttendanceRecord>)
    ensures var r := CreditAll(s, rs);
      && r.presentDays == s.presentDays + Count(rs, EarnsDay)
      && r.totalDays == s.totalDays + Count(rs, EarnsDay)
      && r.leaveDays == s.leaveDays + Count(rs, OnLeave)
      && r.absentDays == s.absentDays + Count(rs, IsAbsent)
      && r.totalMinutes == s.totalMinutes + Sum(rs, CreditedMinutes)
    decreases |rs|
  {
    if rs != [] {
      var n := |rs| - 1;
      assert rs == rs[..n] + [rs[n]];
      CreditAllCounts(s, rs[..n]);
      CountSnoc(rs[..n], rs[n], EarnsDay);
      CountSnoc(rs[..n], rs[n], OnLeave);
      CountSnoc(rs[..n], rs[n], IsAbsent);
      SumSnoc(rs[..n], rs[n], CreditedMinutes);
    }
  }

  /** Crediting one more record is one more step of the fold. */
  lemma CreditAllSnoc(s: EmployeeStats, rs: seq<AttendanceRecord>, x: AttendanceRecord)
    ensures CreditAll(s, rs + [x]) == Credit(CreditAll(s, rs), x)
  {
    assert (rs + [x])[..|rs|] == rs;
  }

  /** One step of the per-employee accumulation. */
  lemma TallyEmployeesSnoc(rs: seq<AttendanceRecord>, x: AttendanceRecord)
    ensures var before := TallyEmployees(rs);
      var s := if x.employeeId in before then before[x.employeeId] else Opening(x);
      TallyEmployees(rs + [x]) == before[x.employeeId := Credit(s, x)]
  {
    assert (rs + [x])[..|rs|] == rs;
  }

  /** The first record of an employee opens their row and is credited once. */
  lemma FirstRecordOf(pre: seq<AttendanceRecord>, x: AttendanceRecord)
    requires x.employeeId !in TallyEmployees(pre)
    ensures RecordsOf(pre + [x], x.employeeId) == [x]
    ensures CreditAll(Opening(x), [x]) == Credit(Opening(x), x)
  {
    var id := x.employeeId;
    FilterNone(pre, (r: AttendanceRecord) => r.employeeId == id);
    RecordsOfSnoc(pre, x, id);
    CreditAllSnoc(Opening(x), [], x);
    assert [] + [x] == [x];
  }

  /** The interleaved accumulation gives each employee the row that
      crediting only their own records, from the row opened at their first
      record, gives. */
  lemma {:induction false} TallyEmployeesPerEmployee(rs: seq<AttendanceRecord>, id: string)
    requires id in TallyEmployees(rs)
    ensures var mine := RecordsOf(rs, id);
      |mine| > 0 && TallyEmployees(rs)[id] == CreditAll(Opening(mine[0]), mine)
    decreases |rs|
  {
    var n := |rs| - 1;
    var pre := rs[..n];
    var x := rs[n];
    assert rs == pre + [x];
    RecordsOfSnoc(pre, x, id);
    TallyEmployeesSnoc(pre, x);
    var before := TallyEmployees(pre);
    var minePre := RecordsOf(pre, id);
    if x.employeeId == id {
      assert RecordsOf(rs, id) == minePre + [x];
      if id in before {
        TallyEmployeesPerEmployee(pre, id);
        var first := Opening(minePre[0]);
        CreditAllSnoc(first, minePre, x);
        assert TallyEmployees(rs)[id] == Credit(before[id], x);
        assert (minePre + [x])[0] == minePre[0];
        assert TallyEmployees(rs)[id] == CreditAll(first, minePre + [x]);
      } else {
        FirstRecordOf(pre, x);
        assert TallyEmployees(rs)[id] == Credit(Opening(x), x);
      }
    } else {
      TallyEmployeesPerEmployee(pre, id);
      assert RecordsOf(rs, id) == minePre;
      assert TallyEmployees(rs)[id] == before[id];
    }
  }

  /** Each row of the per-employee accumulation, against the employee's own
      records counted one by one: the snapshot comes from the employee's
      first record, worked, leave and absent days count the matching
      records, and the total is the sum of the credited minutes. */
  lemma TallyEmployeesCounts(rs: seq<AttendanceRecord>, id: string)
    requires id in TallyEmployees(rs)
    ensures var mine := RecordsOf(rs, id);
      var s := TallyEmployees(rs)[id];
      && |mine| > 0
      && s.name == mine[0].employeeName
      && s.department == mine[0].department
      && s.status == mine[0].status
      && s.presentDays == Count(mine, EarnsDay)
      && s.leaveDays == Count(mine, OnLeave)
      && s.absentDays == Count(mine, IsAbsent)
      && s.totalMinutes == Sum(mine, CreditedMinutes)
  {
    TallyEmployeesPerEmployee(rs, id);
    var mine := RecordsOf(rs, id);
    CreditAllCounts(Opening(mine[0]), mine);
  }

  /** For records of the entry forms' shape the credited minutes are the
      stored minutes, so an employee's total is the sum of the working time
      stored on their records. */
  lemma {:induction false} CreditedMinutesAreStored(rs: seq<AttendanceRecord>)
    requires AllWellShaped(rs)
    ensures Sum(rs, CreditedMinutes) == Sum(rs, (r: AttendanceRecord) => r.workingMinutes)
    decreases |rs|
  {
    if rs != [] {
      assert WellShaped(rs[0]);
      assert AllWellShaped(rs[1..]) by {
        forall j | 0 <= j < |rs[1..]| ensures WellShaped(rs[1..][j]) {
          assert rs[1..][j] == rs[j + 1];
        }
      }
      CreditedMinutesAreStored(rs[1..]);
    }
  }

  /** A record outside the month or the department does not change the
      per-employee report, wherever it stands in the store. */
  lemma ExcludedRecordIgnored(before: seq<AttendanceRecord>, x: AttendanceRecord, after: seq<AttendanceRecord>, month: string, department: string)
    requires !InReport(month, department, x)
    ensures MonthlyReport(before + [x] + after, month, department) == MonthlyReport(before + after, month, department)
  {
    DropRejected(before, x, after, ReportFilter(month, department));
    assert ReportRecords(before + [x] + after, month, department) == ReportRecords(before + after, month, department);
  }

  // ---------------------------------------------------------------------
  // Per-department summary

  /** The running state of one department: the set of employees seen and
      the counters. */
  datatype DepartmentTally = DepartmentTally(employees: set<string>, minutes: nat, present: nat, leave: nat, absent: nat)

  /** One step of the per-department `forEach`: the status tally looks only
      at the status code, office staff or not. */
  function Record(t: DepartmentTally, r: AttendanceRecord): DepartmentTally
  {
    var t' := t.(employees := t.employees + {r.employeeId}, minutes := t.minutes + r.workingMinutes);
    if r.attendanceStatus == Present then t'.(present := t'.present + 1)
    else if r.attendanceStatus == Leave then t'.(leave := t'.leave + 1)
    else if r.attendanceStatus == Absent then t'.(absent := t'.absent + 1)
    else t'
  }

  /** The tally of a department before its first record. */
  const EmptyTally: DepartmentTally := DepartmentTally({}, 0, 0, 0, 0)

  /** The records of one department, in order. */
  function RecordsIn(rs: seq<AttendanceRecord>, department: string): seq<AttendanceRecord>
  {
    Filter(rs, (r: AttendanceRecord) => r.department == department)
  }

  /** A record extends the records of its own department only. */
  lemma RecordsInSnoc(rs: seq<AttendanceRecord>, x: AttendanceRecord, department: string)
    ensures RecordsIn(rs + [x], department) == RecordsIn(rs, department) + (if x.department == department then [x] else [])
  {
    FilterSnoc(rs, x, (r: AttendanceRecord) => r.department == department);
  }

  /** A record adds its department to the departments met. */
  lemma DepartmentsOfSnoc(rs: seq<AttendanceRecord>, x: AttendanceRecord)
    ensures DepartmentsOf(rs + [x]) == DepartmentsOf(rs) + {x.department}
  {
    assert forall r :: r in rs + [x] <==> r in rs || r == x;
  }

  /** The per-department accumulation, left to right: one entry per
      department met. */
  function TallyDepartments(rs: seq<AttendanceRecord>): (m: map<string, DepartmentTally>)
    ensures m.Keys == DepartmentsOf(rs)
    decreases |rs|
  {
    if rs == [] then map[]
    else
      var n := |rs| - 1;
      var before := TallyDepartments(rs[..n]);
      var x := rs[n];
      assert rs == rs[..n] + [x];
      DepartmentsOfSnoc(rs[..n], x);
      var t := if x.department in before then before[x.department] else EmptyTally;
      before[x.department := Record(t, x)]
  }

  /** One department's tally, taking only its own records in order. */
  function RecordAll(t: DepartmentTally, rs: seq<AttendanceRecord>): DepartmentTally
    decreases |rs|
  {
    if rs == [] then t
    else Record(RecordAll(t, rs[..|rs| - 1]), rs[|rs| - 1])
  }

  /** One step of the per-department accumulation. */
  lemma TallyDepartmentsSnoc(rs: seq<AttendanceRecord>, x: AttendanceRecord)
    ensures var before := TallyDepartments(rs);
      var t := if x.department in before then before[x.department] else EmptyTally;
      TallyDepartments(rs + [x]) == before[x.department := Record(t, x)]
  {
    assert (rs + [x])[..|rs|] == rs;
  }

  /** The interleaved accumulation gives each department the tally of its
      own records alone. */
  lemma {:induction false} TallyDepartmentsPerDepartment(rs: seq<AttendanceRecord>, department: string)
    requires department in TallyDepartments(rs)
    ensures TallyDepartments(rs)[department] == RecordAll(EmptyTally, RecordsIn(rs, department))
    decreases |rs|
  {
    var n := |rs| - 1;
    var pre := rs[..n];
    var x := rs[n];
    assert rs == pre + [x];
    RecordsInSnoc(pre, x, department);
    TallyDepartmentsSnoc(pre, x);
    var before := TallyDepartments(pre);
    var mine := RecordsIn(rs, department);
    var minePre := RecordsIn(pre, department);
    if x.department == department {
      assert mine == minePre + [x];
      assert mine[..|mine| - 1] == minePre;
      assert RecordAll(EmptyTally, mine) == Record(RecordAll(EmptyTally, minePre), x);
      if department in before {
        TallyDepartmentsPerDepartment(pre, department);
      } else {
        FilterNone(pre, (r: AttendanceRecord) => r.department == department);
      }
    } else {
      TallyDepartmentsPerDepartment(pre, department);
      assert mine == minePre;
    }
  }

  predicate HasStatus(code: string, r: AttendanceRecord)
  {
    r.attendanceStatus == code
  }

  function StatusIs(code: string): AttendanceRecord -> bool
  {
    r => HasStatus(code, r)
  }

  function StoredMinutes(r: AttendanceRecord): nat
  {
    r.workingMinutes
  }

  /** A record adds its employee to the employees met. */
  lemma EmployeeIdsOfSnoc(rs: seq<AttendanceRecord>, x: AttendanceRecord)
    ensures EmployeeIdsOf(rs + [x]) == EmployeeIdsOf(rs) + {x.employeeId}
  {
    assert forall r :: r in rs + [x] <==> r in rs || r == x;
  }

  /** Tallying a run of records adds its employees to the set, its stored
      minutes to the minutes, and to each status counter the number of
      records with that code. */
  lemma {:induction false} RecordAllCounts(t: DepartmentTally, rs: seq<AttendanceRecord>)
    ensures var r := RecordAll(t, rs);
      && r.employees == t.employees + EmployeeIdsOf(rs)
      && r.minutes == t.minutes + Sum(rs, StoredMinutes)
      && r.present == t.present + Count(rs, StatusIs(Present))
      && r.leave == t.leave + Count(rs, StatusIs(Leave))
      && r.absent == t.absent + Count(rs, StatusIs(Absent))
    decreases |rs|
  {
    if rs != [] {
      var n := |rs| - 1;
      assert rs == rs[..n] + [rs[n]];
      RecordAllCounts(t, rs[..n]);
      EmployeeIdsOfSnoc(rs[..n], rs[n]);
      SumSnoc(rs[..n], rs[n], StoredMinutes);
      CountSnoc(rs[..n], rs[n], StatusIs(Present));
      CountSnoc(rs[..n], rs[n], StatusIs(Leave));
      CountSnoc(rs[..n], rs[n], StatusIs(Absent));
    }
  }

  /** The three status codes are distinct, so a run of records raises the
      status counters by at most its length in total. */
  lemma {:induction false} RecordAllBound(t: DepartmentTally, rs: seq<AttendanceRecord>)
    ensures var r := RecordAll(t, rs);
      r.present + r.leave + r.absent <= t.present + t.leave + t.absent + |rs|
    decreases |rs|
  {
    if rs != [] {
      RecordAllBound(t, rs[..|rs| - 1]);
    }
  }

  /** Each department entry against the department's own records: its
      employee set is the set of distinct employees, its minutes the sum of
      stored minutes, each status tally the number of records with that
      code, and the three tallies together at most its record count. */
  lemma TallyDepartmentsCounts(rs: seq<AttendanceRecord>, department: string)
    requires department in TallyDepartments(rs)
    ensures var mine := RecordsIn(rs, department);
      var t := TallyDepartments(rs)[department];
      && t.employees == EmployeeIdsOf(mine)
      && t.minutes == Sum(mine, StoredMinutes)
      && t.present == Count(mine, StatusIs(Present))
      && t.leave == Count(mine, StatusIs(Leave))
      && t.absent == Count(mine, StatusIs(Absent))
      && t.present + t.leave + t.absent <= |mine|
  {
    TallyDepartmentsPerDepartment(rs, department);
    var mine := RecordsIn(rs, department);
    RecordAllCounts(EmptyTally, mine);
    RecordAllBound(EmptyTally, mine);
  }

  /** The summary row of a department. */
  function Summarise(department: string, t: DepartmentTally): DepartmentSummary
  {
    DepartmentSummary(department, t.minutes, |t.employees|, t.present, t.leave, t.absent)
  }

  /** `getDepartmentSummary`: it takes no department filter, and gives one
      row per department with a record in the month, named after it. */
  function DepartmentSummaries(attendance: seq<AttendanceRecord>, month: string): (m: map<string, DepartmentSummary>)
    ensures forall d :: d in m <==> exists r :: r in attendance && InMonth(month, r) && r.department == d
    ensures forall d :: d in m ==> m[d].name == d
  {
    var ms := MonthRecords(attendance, month);
    assert forall r :: r in ms <==> r in attendance && InMonth(month, r);
    var t := TallyDepartments(ms);
    map d | d in t :: Summarise(d, t[d])
  }

  /** Each summary row against the department's records in the month:
      `totalEmployees` is the number of distinct employees, `totalMinutes`
      the sum of stored minutes, each status count the number of records
      with that code, and the three counts together at most the records. */
  lemma DepartmentSummaryCounts(attendance: seq<AttendanceRecord>, month: string, department: string)
    requires department in DepartmentSummaries(attendance, month)
    ensures var mine := RecordsIn(MonthRecords(attendance, month), department);
      var s := DepartmentSummaries(attendance, month)[department];
      && s.totalEmployees == |EmployeeIdsOf(mine)|
      && s.totalMinutes == Sum(mine, StoredMinutes)
      && s.presentCount == Count(mine, StatusIs(Present))
      && s.leaveCount == Count(mine, StatusIs(Leave))
      && s.absentCount == Count(mine, StatusIs(Absent))
      && s.presentCount + s.leaveCount + s.absentCount <= |mine|
  {
    TallyDepartmentsCounts(MonthRecords(attendance, month), department);
  }

  /** A record outside the month does not change the department summary,
      wherever it stands in the store. */
  lemma ExcludedRecordIgnoredBySummary(before: seq<AttendanceRecord>, x: AttendanceRecord, after: seq<AttendanceRecord>, month: string)
    requires !InMonth(month, x)
    ensures DepartmentSummaries(before + [x] + after, month) == DepartmentSummaries(before + after, month)
  {
    DropRejected(before, x, after, MonthFilter(month));
    assert MonthRecords(before + [x] + after, month) == MonthRecords(before + after, month);
  }

  /** A month without records gives an empty report and an empty summary. */
  lemma EmptyMonthGivesEmptyReports(attendance: seq<AttendanceRecord>, month: string, department: string)
    requires forall r :: r in attendance ==> !InMonth(month, r)
    ensures MonthlyReport(attendance, month, department) == map[]
    ensures DepartmentSummaries(attendance, month) == map[]
  {
  }

  /** Three records of one employee give a single row, credited in order. */
  lemma TallyOfThree(r0: AttendanceRecord, r1: AttendanceRecord, r2: AttendanceRecord)
    requires r1.employeeId == r0.employeeId && r2.employeeId == r0.employeeId
    ensures TallyEmployees([r0, r1, r2]) == map[r0.employeeId := Credit(Credit(Credit(Opening(r0), r0), r1), r2)]
  {
    var id := r0.employeeId;
    TallyEmployeesSnoc([], r0);
    assert [] + [r0] == [r0];
    assert TallyEmployees([r0]) == map[id := Credit(Opening(r0), r0)];
    TallyEmployeesSnoc([r0], r1);
    assert [r0] + [r1] == [r0, r1];
    assert TallyEmployees([r0, r1]) == map[id := Credit(Credit(Opening(r0), r0), r1)];
    TallyEmployeesSnoc([r0, r1], r2);
    assert [r0, r1] + [r2] == [r0, r1, r2];
  }

  /** An office present day, leave day and absent day credit eight hours,
      one worked day and one day of each status. */
  lemma OfficeCreditScenario(r0: AttendanceRecord, r1: AttendanceRecord, r2: AttendanceRecord)
    requires r0.isOfficeStaff && r1.isOfficeStaff && r2.isOfficeStaff
    requires r0.attendanceStatus == Present && r1.attendanceStatus == Leave && r2.attendanceStatus == Absent
    ensures Credit(Credit(Credit(Opening(r0), r0), r1), r2)
         == EmployeeStats(r0.employeeName, r0.department, r0.status, OfficeDayMinutes, 1, 1, 1, 1)
  {
  }

  /** The scenario of an office employee with a present, a leave and an
      absent day in January 2024: eight hours, one worked day, one present,
      one leave and one absent day. */
  lemma OfficeMonthScenario(e: Employee)
    requires e.department == OfficeStaff
    ensures
      var rs := [
        MakeRecord(e, "2024-01-05", Entry(Blank, Blank, Present), "r1", "t1"),
        MakeRecord(e, "2024-01-06", Entry(Blank, Blank, Leave), "r2", "t2"),
        MakeRecord(e, "2024-01-07", Entry(Blank, Blank, Absent), "r3", "t3")];
      var report := MonthlyReport(rs, "2024-01", AllDepartments);
      && report.Keys == {e.id}
      && report[e.id] == EmployeeStats(e.name, e.department, e.status, OfficeDayMinutes, 1, 1, 1, 1)
  {
    var r0 := MakeRecord(e, "2024-01-05", Entry(Blank, Blank, Present), "r1", "t1");
    var r1 := MakeRecord(e, "2024-01-06", Entry(Blank, Blank, Leave), "r2", "t2");
    var r2 := MakeRecord(e, "2024-01-07", Entry(Blank, Blank, Absent), "r3", "t3");
    var rs := [r0, r1, r2];
    assert ReportRecords(rs, "2024-01", AllDepartments) == rs by {
      assert "2024-01" <= r0.date && "2024-01" <= r1.date && "2024-01" <= r2.date;
      FilterAll(rs, ReportFilter("2024-01", AllDepartments));
    }
    TallyOfThree(r0, r1, r2);
    OfficeCreditScenario(r0, r1, r2);
  }
}
