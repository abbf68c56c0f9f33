/** The two stored collections, `employees` and `attendance`, as flat records,
    and the fixed enumerations the forms offer. */
module Records {

  /** The department whose members are tracked by a daily status code
      instead of clock times. */
  const OfficeStaff: string := "OFFICE STAFF"

  /** The departments the registration form offers. */
  const Departments: seq<string> := [
    "MOULDING DEPT. (A & B SHIFT)",
    "FOILING & HOT STAMPING DEPT.",
    "DAY SHIFT REFILLING DEPT.",
    "EXTRUSION DEPT. (A & B SHIFT)",
    "PEN ASSEMBLING DEPT.",
    "DESPATCH DEPT. DAY SHIFT",
    OfficeStaff
  ]

  /** Employment statuses. */
  const Payroll: string := "PAYROLL"
  const NonPayroll: string := "NON PAYROLL"

  /** Attendance status codes: present, on leave, absent. */
  const Present: string := "1"
  const Leave: string := "L"
  const Absent: string := "A"

  const MinutesPerHour: int := 60
  const MinutesPerDay: int := 24 * MinutesPerHour

  /** A time of day as minutes since midnight. */
  type ClockMinute = m: int | 0 <= m < MinutesPerDay

  /** A time input: `Blank` is the empty string an unfilled field holds. */
  datatype ClockTime = Blank | At(minute: ClockMinute)

  /** The data a registration form (or a built-in dummy entry) supplies. */
  datatype Profile = Profile(name: string, department: string, status: string, employeeId: string)

  /** A stored employee. `id` is the opaque identifier attendance records
      refer to; `employeeId` is the human-chosen code. */
  datatype Employee = Employee(
    id: string,
    employeeId: string,
    name: string,
    department: string,
    status: string,
    registeredAt: string)

  /** A stored attendance record. `employeeId` holds the employee's `id`;
      name, department and status are a snapshot taken at entry time.
      Working time is kept in whole minutes (the source's hours times 60). */
  datatype AttendanceRecord = AttendanceRecord(
    id: string,
    employeeId: string,
    employeeName: string,
    department: string,
    status: string,
    date: string,
    inTime: ClockTime,
    outTime: ClockTime,
    workingMinutes: nat,
    attendanceStatus: string,
    isOfficeStaff: bool,
    createdAt: string)

  /** `{ ...profile, registeredAt, id }`: the employee stored for a profile. */
  function Enrol(p: Profile, id: string, now: string): (e: Employee)
    ensures ProfileOf(e) == p
    ensures e.id == id && e.registeredAt == now
  {
    Employee(id, p.employeeId, p.name, p.department, p.status, now)
  }

  /** The form-supplied part of a stored employee. */
  function ProfileOf(e: Employee): Profile
  {
    Profile(e.name, e.department, e.status, e.employeeId)
  }

  /** The natural key of an attendance record. */
  function Key(r: AttendanceRecord): (string, string)
  {
    (r.employeeId, r.date)
  }

  /** At most one attendance record per (employee, date). */
  predicate NaturalKeyUnique(rs: seq<AttendanceRecord>)
  {
    forall i, j :: 0 <= i < j < |rs| ==> Key(rs[i]) != Key(rs[j])
  }

  /** No two attendance records share an `id`. */
  predicate RecordIdsUnique(rs: seq<AttendanceRecord>)
  {
    forall i, j :: 0 <= i < j < |rs| ==> rs[i].id != rs[j].id
  }

  /** No two employees share an `employeeId` code. */
  predicate EmployeeCodesUnique(es: seq<Employee>)
  {
    forall i, j :: 0 <= i < j < |es| ==> es[i].employeeId != es[j].employeeId
  }

  /** No two employees share an `id`. */
  predicate EmployeeIdsUnique(es: seq<Employee>)
  {
    forall i, j :: 0 <= i < j < |es| ==> es[i].id != es[j].id
  }

  /** Whether some stored employee carries the code. */
  predicate HasCode(es: seq<Employee>, code: string)
  {
    exists e :: e in es && e.employeeId == code
  }
}
