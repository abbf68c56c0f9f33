# Pen-pulse attendance system: a Dafny model of its record logic

The attendance system is a browser application for a pen factory. It stores
two collections, `employees` and `attendance`. Its screens register
employees, list them, record daily attendance one employee at a time or in
bulk, and summarise a month on a dashboard. This project models the pure
logic inside those screens as Dafny functions over sequences of flat
records, and proves what that logic promises.

The model covers:

- **Working time** (`AttendanceRules`). The clock difference wraps over
  midnight and is always below one day. Office staff are credited eight
  hours for status `"1"` and nothing otherwise. Records are built the same
  way by both entry forms, and lookup is by the natural key (employee, date).
- **Single entry** (`AttendanceEntry`). Validation runs in the source's
  order, followed by insert-or-update on the natural key. An update keeps
  the stored `id` and `createdAt`.
- **Bulk entry** (`BulkAttendanceEntry`):
  - employees are selected by department or status;
  - the save loop is a verified `while` loop;
  - it counts added and updated records;
  - re-running a batch adds nothing, and for a selection of employees with
    distinct ids it changes nothing.
- **Dashboard** (`Dashboard`). Per-employee counters come from the month's
  records, optionally for one department. Per-department summaries come
  from all of the month's records. Each counter is proved equal to an
  independent count over the records.
- **Registration** (`EmployeeRegistration`). Every field is required and
  employee codes must be unique.
- **Employee list** (`EmployeeList`):
  - the department/status filter;
  - the idempotent insertion of the fifteen built-in dummy employees;
  - the per-department payroll tallies and the filtered tallies.

`Collections` holds the generic `filter`, count and sum operations with
their lemmas. `Records` holds the record types and the store invariants.
`Wrappers` holds `Option` and `Result`.

Modelling choices:

- **Time.** A time input is `Blank`, which stands for the empty string, or
  a minute of the day in 0..1439. Working time is a whole number of
  minutes; the source's hours are these minutes divided by 60.
- **Empty strings.** Ids, dates, codes and statuses stay strings, so the
  source's `!x` tests for an empty string are modelled exactly.
- **Month filter.** `date.startsWith(month)` is Dafny's prefix test
  `month <= date`.
- **Failure.** A handler that reports an error returns `Failure` and
  carries no collection: nothing is written.
- **Ids and timestamps.** Generated ids and timestamps are parameters
  (`freshId`, `now`, `stamp`).
- **Keys of attendance records.** An attendance record's `employeeId` holds
  the employee's `id`, not the human-chosen code.
- **Single-entry update.** It replaces every record whose `id` equals the
  found record's `id`, exactly as `map` does in the source. The lemmas
  about it therefore assume record ids are unique.
- **Unknown selected employee.** If the selected id names no loaded
  employee, the source raises a type error at `selectedEmp.name` after
  validation. The model reports this as `UnknownEmployee` and writes
  nothing.
- **Two kinds of stats.** The department statistics count any status other
  than `"PAYROLL"` as non-payroll. The filtered statistics count
  `"PAYROLL"` and `"NON PAYROLL"` by exact match. `EmployeeList.FilteredStats`
  and `EmployeeList.StatisticsAgree` state where the two agree.

## Model

| member | source | states |
|---|---|---|
| Records.Enrol | src/components/EmployeeRegistration.tsx:58-62 | the stored employee carries the submitted name, department, status and code unchanged, plus the generated id and registration time |
| Collections.Filter | src/components/BulkAttendanceEntry.tsx:32-36 | `filter` returns an order-preserving subsequence holding exactly the elements that satisfy the predicate |
| AttendanceRules.WorkingMinutes | src/components/AttendanceEntry.tsx:30-42 | the working time is 0 when either time is empty; otherwise it is below one day, and adding it to the in-time reaches the out-time modulo one day |
| AttendanceRules.WorkingMinutesUnique | src/components/AttendanceEntry.tsx:36-41 | any duration below one day that leads from the in-time to the out-time equals the computed working time |
| AttendanceRules.WorkingMinutesCases | src/components/AttendanceEntry.tsx:31-41 | equal times give zero; an out-time before the in-time gives the span across midnight; otherwise the plain difference |
| AttendanceRules.NightShiftIsEightHours | src/components/AttendanceEntry.tsx:36-41 | a 22:00 to 06:00 shift is credited eight hours |
| AttendanceRules.EntryMinutes | src/components/AttendanceEntry.tsx:84-86 | office staff get eight hours exactly when the status is `"1"` and zero otherwise; other staff get zero when either time is empty and otherwise the clock difference wrapped over midnight, below one day |
| AttendanceRules.MakeRecord | src/components/AttendanceEntry.tsx:88-101 | the built record has the entry forms' shape: office records have blank times and the entered status; other records have status `"1"` and the entered times. It is keyed by employee and date and snapshots the employee's name, department and status |
| AttendanceRules.FindRecord | src/components/AttendanceEntry.tsx:80-82 | returns the first index with the natural key, or none exactly when no record has the key |
| AttendanceRules.FindRecordFindsOwnKey | src/components/AttendanceEntry.tsx:80-82 | when natural keys are unique, looking up a record's own key returns that record's index |
| AttendanceRules.FindRecordPresent | src/components/AttendanceEntry.tsx:80-82 | a natural key is found exactly when it is in the collection's set of keys |
| AttendanceEntry.FindEmployee | src/components/AttendanceEntry.tsx:27 | finds the first stored employee with the selected id, or none exactly when no stored employee has it |
| AttendanceEntry.ReplaceByIdIsUpdate | src/components/AttendanceEntry.tsx:105-107 | when record ids are unique, mapping over the collection by a record's id replaces that record alone, in place |
| AttendanceEntry.SubmitAttendance | src/components/AttendanceEntry.tsx:44-113 | each validation error in the source's order; success exactly when the selection, status and times are complete; an unknown key is appended with the rest kept as a prefix; a known key is updated in place, keeping `id`/`createdAt`, with records of other ids untouched |
| AttendanceEntry.SubmitKeepsRecordsWellShaped | src/components/AttendanceEntry.tsx:88-112 | a successful submission keeps every record in the entry forms' shape |
| AttendanceEntry.SubmitPreservesStoreInvariant | src/components/AttendanceEntry.tsx:80-112 | with unique record ids and a fresh id, a successful submission keeps one record per (employee, date) and the record ids unique |
| AttendanceEntry.ResubmitKeepsIdentity | src/components/AttendanceEntry.tsx:80-108 | a second submission for the same employee and date overwrites the first in place, under the first submission's `id` and `createdAt`, and touches no other record |
| BulkAttendanceEntry.SelectEmployees | src/components/BulkAttendanceEntry.tsx:30-41 | an empty filter value selects nobody; otherwise exactly the matching employees, in stored order |
| BulkAttendanceEntry.SelectionMultiplicity | src/components/BulkAttendanceEntry.tsx:30-41 | the selection keeps every occurrence of a matching employee and none of the others |
| BulkAttendanceEntry.SelectionKeepsIdsUnique | src/components/BulkAttendanceEntry.tsx:30-41 | selecting from employees with distinct ids gives employees with distinct ids |
| BulkAttendanceEntry.InitialDefaultsCredit | src/components/BulkAttendanceEntry.tsx:17-22 | the default 09:00-18:00 times credit nine hours, and the default status credits office staff a present day |
| BulkAttendanceEntry.SaveOne | src/components/BulkAttendanceEntry.tsx:76-108 | one iteration bumps exactly one counter: `updated` exactly when the employee's key for the date is already stored, `added` exactly when it is not; only an append lengthens the collection; existing records keep `id` and `createdAt`; other keys are untouched; the key set gains the employee's key |
| BulkAttendanceEntry.SaveAll | src/components/BulkAttendanceEntry.tsx:75-109 | added + updated equals the selection size; final length is initial length plus added; stored records keep place, `id` and `createdAt`, and records outside the batch's keys keep their contents |
| BulkAttendanceEntry.SaveAllKeys | src/components/BulkAttendanceEntry.tsx:79-108 | after a batch the keys are the old keys plus the batch's keys |
| BulkAttendanceEntry.HandleBulkSave | src/components/BulkAttendanceEntry.tsx:61-111 | fails with nothing written exactly when the selection is empty; otherwise its loop computes the batch save, with the two counter identities |
| BulkAttendanceEntry.SaveOnePreservesNaturalKey | src/components/BulkAttendanceEntry.tsx:79-108 | saving one employee keeps at most one record per (employee, date) |
| BulkAttendanceEntry.SaveAllPreservesNaturalKey | src/components/BulkAttendanceEntry.tsx:79-108 | a batch keeps at most one record per (employee, date) |
| BulkAttendanceEntry.SaveAllKeepsRecordsWellShaped | src/components/BulkAttendanceEntry.tsx:83-100 | a batch writes only records of the entry forms' shape |
| BulkAttendanceEntry.SaveAllOverPresentKeys | src/components/BulkAttendanceEntry.tsx:79-104 | when every key of the batch is already stored, nothing is added and every selected employee is counted as updated |
| BulkAttendanceEntry.RerunAddsNothing | src/components/BulkAttendanceEntry.tsx:79-108 | re-running a batch on the same date adds 0 records and updates all N |
| BulkAttendanceEntry.FreshBatchAddsAll | src/components/BulkAttendanceEntry.tsx:79-108 | a batch of distinct employees with no record for the date adds all N and updates none |
| BulkAttendanceEntry.SaveOneSettles | src/components/BulkAttendanceEntry.tsx:79-108 | saving one employee leaves their record carrying the batch's entry, and keeps other employees already saved that way |
| BulkAttendanceEntry.SaveAllSettles | src/components/BulkAttendanceEntry.tsx:75-109 | after a batch of distinct employees, each one's first record for the date carries the batch's entry |
| BulkAttendanceEntry.SaveAllSettledIsIdentity | src/components/BulkAttendanceEntry.tsx:75-109 | saving employees whose records already carry the entry writes the collection back unchanged |
| BulkAttendanceEntry.RerunIsIdempotent | src/components/BulkAttendanceEntry.tsx:75-109 | re-running a batch of distinct employees on the same date leaves the collection exactly as the first run left it |
| Dashboard.TallyEmployees | src/components/Dashboard.tsx:48-79 | one row per distinct employee among the records, and worked days equal present days in every row |
| Dashboard.MonthlyReport | src/components/Dashboard.tsx:42-82 | a row exists exactly for the employees with a record in the month (and the department, unless `ALL`); worked days equal present days |
| Dashboard.CreditAll | src/components/Dashboard.tsx:64-78 | crediting records never changes the row's name, department and status snapshot |
| Dashboard.CreditAllCounts | src/components/Dashboard.tsx:64-78 | crediting a run of records adds the numbers of worked, leave and absent records and the sum of credited minutes |
| Dashboard.TallyEmployeesPerEmployee | src/components/Dashboard.tsx:48-79 | the interleaved pass gives each employee the row from crediting only their own records, starting from their first record |
| Dashboard.TallyEmployeesCounts | src/components/Dashboard.tsx:48-79 | each row's snapshot is the employee's first record; its present, leave and absent days count the matching records; its total is the sum of credited minutes |
| Dashboard.CreditedMinutesAreStored | src/components/Dashboard.tsx:64-78 | for records of the entry forms' shape, the credited minutes sum to the stored working time |
| Dashboard.ExcludedRecordIgnored | src/components/Dashboard.tsx:43-46 | a record outside the month or the department does not change the report, wherever it stands in the store |
| Dashboard.TallyDepartments | src/components/Dashboard.tsx:88-110 | one entry per department among the records |
| Dashboard.TallyDepartmentsPerDepartment | src/components/Dashboard.tsx:88-110 | the interleaved pass gives each department the tally of its own records alone |
| Dashboard.RecordAllCounts | src/components/Dashboard.tsx:100-109 | tallying a run adds its employees to the set, its stored minutes to the total, and its records with each status code to that code's count |
| Dashboard.RecordAllBound | src/components/Dashboard.tsx:103-109 | a run of records raises the three status counts by at most its length |
| Dashboard.TallyDepartmentsCounts | src/components/Dashboard.tsx:88-110 | each department's employee set, minutes and status counts match its records, and the three counts are at most its record count |
| Dashboard.DepartmentSummaries | src/components/Dashboard.tsx:84-116 | there is no department filter; a row exists exactly for each department with a record in the month, named after it |
| Dashboard.DepartmentSummaryCounts | src/components/Dashboard.tsx:84-116 | `totalEmployees` is the number of distinct employees; the total is the sum of stored minutes; present + leave + absent is at most the department's records in the month |
| Dashboard.ExcludedRecordIgnoredBySummary | src/components/Dashboard.tsx:85 | a record outside the month does not change the department summary, wherever it stands in the store |
| Dashboard.EmptyMonthGivesEmptyReports | src/components/Dashboard.tsx:42-116 | a month without records gives an empty report and an empty summary |
| Dashboard.OfficeCreditScenario | src/components/Dashboard.tsx:64-73 | an office present, leave and absent day give eight hours, one worked day and one day of each status |
| Dashboard.TallyOfThree | src/components/Dashboard.tsx:50-79 | three records of one employee give one row, credited in order |
| Dashboard.OfficeMonthScenario | src/components/Dashboard.tsx:42-82 | a January with an office employee's present, leave and absent day reports one row: 8 hours, 1 worked, 1 present, 1 leave, 1 absent |
| EmployeeRegistration.Register | src/components/EmployeeRegistration.tsx:32-65 | an empty field is rejected first, then a stored code; success exactly otherwise, appending the enrolled form with the stored employees kept as a prefix |
| EmployeeRegistration.RegisterKeepsCodesUnique | src/components/EmployeeRegistration.tsx:48-65 | unique employee codes stay unique after registration |
| EmployeeRegistration.RegisterKeepsIdsUnique | src/components/EmployeeRegistration.tsx:58-65 | with a fresh id, unique employee ids stay unique |
| EmployeeRegistration.RegisterTwiceRejected | src/components/EmployeeRegistration.tsx:48-55 | submitting the same form again is rejected as a duplicate |
| EmployeeList.FilterEmployees | src/components/EmployeeList.tsx:54-66 | an order-preserving subsequence holding exactly the employees that pass both filters; the whole list when both filters are `ALL` |
| EmployeeList.FilterEmployeesIsOneFilter | src/components/EmployeeList.tsx:54-66 | the two filtering stages equal one filter by the combined condition |
| EmployeeList.DummyEmployeesWellFormed | src/components/EmployeeList.tsx:23-39 | the built-in profiles have distinct codes and use the registration form's departments |
| EmployeeList.EnrolAll | src/components/EmployeeList.tsx:83-87 | the stored employees carry exactly the given profiles, in order, the j-th under the j-th generated id and the j-th clock reading |
| EmployeeList.AddDummyEmployees | src/components/EmployeeList.tsx:68-97 | fails with nothing written exactly when every dummy code is stored; otherwise appends after the stored employees only profiles that are dummies with codes not yet stored |
| EmployeeList.AddDummyEmployeesAddsMissing | src/components/EmployeeList.tsx:70-90 | the added profiles are exactly the dummies whose codes were missing, in built-in order, under the generated ids and clock readings |
| EmployeeList.AddDummyEmployeesTwiceRejected | src/components/EmployeeList.tsx:70-81 | right after a successful insertion, a second insertion is rejected |
| EmployeeList.AddDummyEmployeesKeepsCodesUnique | src/components/EmployeeList.tsx:70-90 | unique employee codes stay unique after the insertion |
| EmployeeList.FindRow | src/components/EmployeeList.tsx:101-104 | finds the department's row, or none exactly when no row has that department |
| EmployeeList.DepartmentStats | src/components/EmployeeList.tsx:99-113 | no department has two rows, and every row's total is payroll plus non-payroll |
| EmployeeList.DepartmentStatsRows | src/components/EmployeeList.tsx:99-113 | there is a row for a department exactly when some employee belongs to it |
| EmployeeList.DepartmentStatsCoverAll | src/components/EmployeeList.tsx:99-113 | the row totals add up to the number of employees |
| EmployeeList.BumpCounts | src/components/EmployeeList.tsx:100-111 | counting one more employee keeps a correct row correct: bumped for the employee's department, unchanged for the others |
| EmployeeList.NewRowCounts | src/components/EmployeeList.tsx:101-110 | the row opened for a department nobody was in counts the new employee alone, as payroll or non-payroll by status |
| EmployeeList.CountEmployeeCounts | src/components/EmployeeList.tsx:100-111 | one step of the loop keeps every row's counts correct, given distinct departments and no missing row for a staffed department |
| EmployeeList.DepartmentStatsCounts | src/components/EmployeeList.tsx:99-113 | each row counts the department's employees, those with status `PAYROLL`, and those with any other status |
| EmployeeList.FilteredStats | src/components/EmployeeList.tsx:117-123 | the total is the filtered length; the payroll and non-payroll counts are the numbers of rows the status filter shows for `PAYROLL` and `NON PAYROLL`; their sum is at most the total, and equals it when every status is one of the two |
| EmployeeList.StatisticsAgreeOnPayroll | src/components/EmployeeList.tsx:99-123 | whatever the statuses, the filtered stats of the list narrowed to a department match its row on the total and on payroll, and count at most the row's non-payroll |
| EmployeeList.StatisticsAgree | src/components/EmployeeList.tsx:99-123 | when every status is `PAYROLL` or `NON PAYROLL`, the filtered stats of the list narrowed to a department equal that department's row |

## Left out

- Reading and writing `localStorage` and the JSON encoding are left out. Every operation takes the stored collection and returns the collection to write.
- `Date.now()`, `Math.random()` and `new Date().toISOString()` are not modelled. Generated ids and timestamps are parameters; lemmas that need a fresh id require it. The dummy insertion reads the clock once per added employee (src/components/EmployeeList.tsx:83-86), so `EmployeeList.EnrolAll` takes one id and one timestamp per position.
- BulkAttendanceEntry.SaveAll: the bulk loop reads the clock once per employee in the source (`Date.now()` for the id and `new Date().toISOString()` for `createdAt`, src/components/BulkAttendanceEntry.tsx:88 and :99) but once per batch here (`stamp`, `now`). So records appended by one batch share one `createdAt` here, where the source may give them different timestamps; the other fields do not depend on the clock.
- JavaScript `Date` parsing of `"2000-01-01T<time>"` and time-zone effects are not modelled. Times are minutes of the day.
- Working hours are floating-point in the source; here they are whole minutes, so hours with fractions of a minute and `toFixed` formatting are not modelled.
- The dashboard averages (src/components/Dashboard.tsx:181-197) are display arithmetic over the report and are not modelled.
- Dashboard.MonthlyReport and Dashboard.DepartmentSummaries return maps keyed by employee and department, so the order of `Object.values` is not modelled.
- Department names and employee ids are used as keys of plain JavaScript objects (src/components/EmployeeList.tsx:100-110, src/components/Dashboard.tsx:50-52 and :88-101). The model assumes no key is an `Object.prototype` property name such as `"constructor"`, for which the source's `!stats[key]` test sees an inherited value and never opens the entry. It also assumes no key is an integer-like string, which JavaScript enumerates before the others; EmployeeList.DepartmentStats keeps plain first-appearance order.
- Dashboard.TallyDepartments: the `workingHours || 0` fallback for a missing field has no counterpart, because every modelled record carries its minutes.
- AttendanceEntry.SubmitPreservesStoreInvariant: holds only when record ids are unique and the new id is fresh. The source relies on `Date.now()` for this, and its update replaces every record sharing the found id.
- React state, effects, toasts, forms, tables, charts and the tab routing in src/pages/Index.tsx hold no record logic and are not modelled.
- Registration does not restrict departments and statuses to the form's options, and neither does the model: they are free strings.
