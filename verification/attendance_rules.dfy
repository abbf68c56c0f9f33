/** Rules shared by single and bulk attendance entry: the working-time
    computation, the construction of a record from an employee and an entry,
    and the lookup of an existing record by natural key. */
module AttendanceRules {
  import opened Wrappers
  import opened Records

  /** Hours credited to office staff for a present day, in minutes. */
  const OfficeDayMinutes: nat := 8 * MinutesPerHour

  /** `calculateWorkingHours`: the minutes from in-time to out-time, where an
      out-time earlier than the in-time falls on the next day; 0 when either
      field is empty. The result is the unique duration below one day that
      brings the in-time round the clock to the out-time. */
  function WorkingMinutes(inTime: ClockTime, outTime: ClockTime): (r: nat)
    ensures r < MinutesPerDay
    ensures inTime.Blank? || outTime.Blank? ==> r == 0
    ensures inTime.At? && outTime.At? ==> (inTime.minute + r) % MinutesPerDay == outTime.minute
  {
    if inTime.Blank? || outTime.Blank? then 0
    else if outTime.minute < inTime.minute then outTime.minute + MinutesPerDay - inTime.minute
    else outTime.minute - inTime.minute
  }

  /** Any duration below one day that leads from the in-time to the out-time
      is the computed working time. */
  lemma WorkingMinutesUnique(inMinute: ClockMinute, outMinute: ClockMinute, d: int)
    requires 0 <= d < MinutesPerDay
    requires (inMinute + d) % MinutesPerDay == outMinute
    ensures d == WorkingMinutes(At(inMinute), At(outMinute))
  {
    if inMinute + d < MinutesPerDay {
      assert outMinute == inMinute + d;
    } else {
      assert outMinute == inMinute + d - MinutesPerDay;
    }
  }

  /** Two filled times give zero working time exactly when they are equal;
      an out-time before the in-time wraps over midnight. */
  lemma WorkingMinutesCases(inMinute: ClockMinute, outMinute: ClockMinute)
    ensures WorkingMinutes(At(inMinute), At(outMinute)) == 0 <==> inMinute == outMinute
    ensures outMinute < inMinute ==>
      WorkingMinutes(At(inMinute), At(outMinute)) == MinutesPerDay - inMinute + outMinute
    ensures inMinute <= outMinute ==> WorkingMinutes(At(inMinute), At(outMinute)) == outMinute - inMinute
  {
  }

  /** A night shift from 22:00 to 06:00 is eight hours. */
  lemma NightShiftIsEightHours()
    ensures WorkingMinutes(At(22 * MinutesPerHour), At(6 * MinutesPerHour)) == OfficeDayMinutes
  {
  }

  /** The time and status data entered for one employee on one date. */
  datatype Entry = Entry(inTime: ClockTime, outTime: ClockTime, status: string)

  /** Whether an employee is office staff, decided by department. */
  predicate IsOfficeStaff(e: Employee)
  {
    e.department == OfficeStaff
  }

  /** Working time credited for an entry: 8 hours or 0 for office staff
      depending on whether the status is present, otherwise the clock
      difference. */
  function EntryMinutes(officeStaff: bool, entry: Entry): (r: nat)
    ensures officeStaff ==> (r == OfficeDayMinutes <==> entry.status == Present)
    ensures officeStaff ==> (r == 0 <==> entry.status != Present)
    ensures !officeStaff ==> r < MinutesPerDay
    ensures !officeStaff && (entry.inTime.Blank? || entry.outTime.Blank?) ==> r == 0
    ensures !officeStaff && entry.inTime.At? && entry.outTime.At? ==>
      (entry.inTime.minute + r) % MinutesPerDay == entry.outTime.minute
  {
    if officeStaff then (if entry.status == Present then OfficeDayMinutes else 0)
    else WorkingMinutes(entry.inTime, entry.outTime)
  }

  /** The shape every record written by the entry forms has: office staff
      carry a status code, blank times and 8 or 0 hours; everyone else carries
      the present code and the clock difference of the stored times. */
  predicate WellShaped(r: AttendanceRecord)
  {
    && r.isOfficeStaff == (r.department == OfficeStaff)
    && (r.isOfficeStaff ==>
          && r.inTime.Blank? && r.outTime.Blank?
          && r.workingMinutes == (if r.attendanceStatus == Present then OfficeDayMinutes else 0))
    && (!r.isOfficeStaff ==>
          && r.attendanceStatus == Present
          && r.workingMinutes == WorkingMinutes(r.inTime, r.outTime))
  }

  /** Every record of a collection has the entry forms' shape. */
  predicate AllWellShaped(rs: seq<AttendanceRecord>)
  {
    forall j :: 0 <= j < |rs| ==> WellShaped(rs[j])
  }

  /** The record the entry forms build for an employee, a date and an entry,
      under a given `id` and `createdAt`. */
  function MakeRecord(e: Employee, date: string, entry: Entry, id: string, createdAt: string): (r: AttendanceRecord)
    ensures WellShaped(r)
    ensures Key(r) == (e.id, date)
    ensures r.id == id && r.createdAt == createdAt
    ensures r.employeeName == e.name && r.department == e.department && r.status == e.status
    ensures r.isOfficeStaff ==> r.attendanceStatus == entry.status
    ensures !r.isOfficeStaff ==> r.inTime == entry.inTime && r.outTime == entry.outTime
  {
    var office := IsOfficeStaff(e);
    AttendanceRecord(
      id, e.id, e.name, e.department, e.status, date,
      if office then Blank else entry.inTime,
      if office then Blank else entry.outTime,
      EntryMinutes(office, entry),
      if office then entry.status else Present,
      office, createdAt)
  }

  /** `findIndex` by natural key: the first record for the employee and date. */
  function FindRecord(rs: seq<AttendanceRecord>, employeeId: string, date: string): (r: Option<nat>)
    ensures r.Some? ==> r.value < |rs| && Key(rs[r.value]) == (employeeId, date)
    ensures r.Some? ==> forall j :: 0 <= j < r.value ==> Key(rs[j]) != (employeeId, date)
    ensures r.None? <==> forall j :: 0 <= j < |rs| ==> Key(rs[j]) != (employeeId, date)
    decreases |rs|
  {
    if rs == [] then None
    else if Key(rs[0]) == (employeeId, date) then Some(0)
    else match FindRecord(rs[1..], employeeId, date)
      case None => None
      case Some(k) => Some(k + 1)
  }

  /** With unique natural keys, looking up a record's key finds that record. */
  lemma FindRecordFindsOwnKey(rs: seq<AttendanceRecord>, j: nat)
    requires NaturalKeyUnique(rs)
    requires j < |rs|
    ensures FindRecord(rs, rs[j].employeeId, rs[j].date) == Some(j)
  {
    assert Key(rs[j]) == (rs[j].employeeId, rs[j].date);
  }

  /** The set of natural keys present in a collection. */
  function Keys(rs: seq<AttendanceRecord>): set<(string, string)>
  {
    set r | r in rs :: Key(r)
  }

  /** A key is found exactly when it is present. */
  lemma FindRecordPresent(rs: seq<AttendanceRecord>, employeeId: string, date: string)
    ensures FindRecord(rs, employeeId, date).Some? <==> (employeeId, date) in Keys(rs)
  {
    if (employeeId, date) in Keys(rs) {
      var r :| r in rs && Key(r) == (employeeId, date);
      var j :| 0 <= j < |rs| && rs[j] == r;
    }
  }
}
