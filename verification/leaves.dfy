/** The leaves routes: the salary-deduction calculator and the leaves table
    (apply, update status, delete). */
module Leaves {
  import opened Common
  import opened Dates
  import opened Keyed
  import opened Employees

  /** A row of the `leaves` table (without its `id`, which is the row's key). */
  datatype Leave = Leave(
    employeeId: Option<int>,
    employeeName: string,
    department: string,
    leaveType: string,
    startDate: Date,
    endDate: Date,
    leaveHours: Option<real>,
    reason: Option<string>,
    status: Option<string>,
    leavesTaken: real,
    leavesDuration: Option<string>,
    salaryDeduction: real)

  type LeaveTable = seq<Entry<int, Leave>>

  /** `leave_policies`: employee id to `number_of_leaves`, the paid-leave allowance. */
  type PolicyTable = seq<Entry<int, int>>

  // ---------------------------------------------------------------------------
  // Salary bands, shared by the leave deduction and the unauthorized-leave penalty

  datatype Band = NoBand | Low | Middle | High

  /** The three salary ranges both slabs test, exactly as written: bounds
      4500..7500, 7501..9500 and from 9501, inclusive. */
  function BandOf(salary: real): Band {
    if 4500.0 <= salary <= 7500.0 then Low
    else if 7501.0 <= salary <= 9500.0 then Middle
    else if salary >= 9501.0 then High
    else NoBand
  }

  /** `deductionPerDay` of the slab: the price of one unpaid leave day. */
  function LeaveDeductionRate(salary: real): real {
    match BandOf(salary)
    case Low => 700.0
    case Middle => 1400.0
    case High => 2800.0
    case NoBand => 0.0
  }

  lemma LeaveDeductionSlab(salary: real)
    ensures LeaveDeductionRate(salary) == 700.0 <==> 4500.0 <= salary <= 7500.0
    ensures LeaveDeductionRate(salary) == 1400.0 <==> 7501.0 <= salary <= 9500.0
    ensures LeaveDeductionRate(salary) == 2800.0 <==> salary >= 9501.0
    ensures LeaveDeductionRate(salary) == 0.0 <==>
              salary < 4500.0 || (7500.0 < salary < 7501.0) || (9500.0 < salary < 9501.0)
  {
  }

  /** A salary in whole currency units above a band's upper bound reaches the
      next band's lower bound, so on whole salaries the band only climbs. */
  lemma BandMonotoneOnWholeSalaries(n1: int, n2: int)
    requires n1 <= n2
    ensures BandOf(n1 as real) == Middle ==> BandOf(n2 as real) in {Middle, High}
    ensures BandOf(n1 as real) == High ==> BandOf(n2 as real) == High
    ensures BandOf(n1 as real) == Low ==> BandOf(n2 as real) != NoBand
  {
    assert n1 as real <= n2 as real;
    if n2 > 7500 {
      assert n2 >= 7501;
      assert n2 as real >= 7501.0;
    }
    if n2 > 9500 {
      assert n2 as real >= 9501.0;
    }
    if n2 <= 7500 {
      assert n2 as real <= 7500.0;
    }
    if n2 <= 9500 {
      assert n2 as real <= 9500.0;
    }
  }

  /** For whole salaries the per-day deduction is nondecreasing in the salary. */
  lemma LeaveDeductionRateMonotone(n1: int, n2: int)
    requires n1 <= n2
    ensures LeaveDeductionRate(n1 as real) <= LeaveDeductionRate(n2 as real)
  {
    BandMonotoneOnWholeSalaries(n1, n2);
  }

  /** A fractional salary just above 7500 falls between the bands and
      costs nothing per unpaid day, although 7500 costs 700. */
  lemma FractionalSalaryFallsBetweenBands()
    ensures LeaveDeductionRate(7500.0) == 700.0
    ensures LeaveDeductionRate(7500.5) == 0.0
    ensures LeaveDeductionRate(9500.5) == 0.0
  {
  }

  // ---------------------------------------------------------------------------
  // Duration classes and equivalent days

  datatype DurationClass = Hourly | HalfDay | FullDay | MultipleDay | Unrecognised

  /** `leaveDuration.toLowerCase()` compared with the four known words. */
  function ClassOf(leaveDuration: string): DurationClass {
    var d := Lower(leaveDuration);
    if d == "hourly" then Hourly
    else if d == "halfday" then HalfDay
    else if d == "fullday" then FullDay
    else if d == "multipleday" then MultipleDay
    else Unrecognised
  }

  const WorkingHoursPerDay: real := 10.0

  /** `setHours(0, 0, 0, 0)`: the midnight that starts the instant's day. */
  function Midnight(t: Instant): Instant {
    Instant(t.day, 0)
  }

  /** The leave's length in days: hours over ten for an hourly leave, half a day,
      or the inclusive count of calendar days; nothing for any other class.
      A leave that does not end before it starts is never negative, and a
      full-day or multiple-day one counts at least its first day. */
  function EquivalentLeaveDays(leaveDuration: string, start: Instant, end: Instant): (r: real)
    ensures ValidInstant(start) && ValidInstant(end) && ElapsedMs(start, end) >= 0 ==> r >= 0.0
    ensures (ValidInstant(start) && ValidInstant(end) && ElapsedMs(start, end) >= 0
             && ClassOf(leaveDuration) in {FullDay, MultipleDay}) ==> r >= 1.0
  {
    assert end.day < start.day ==> (end.day - start.day) * MsPerDay <= -MsPerDay;
    match ClassOf(leaveDuration)
    case Hourly =>
      (ElapsedMs(start, end) as real / MsPerHour as real) / WorkingHoursPerDay
    case HalfDay => 0.5
    case FullDay | MultipleDay =>
      ElapsedMs(Midnight(start), Midnight(end)) as real / MsPerDay as real + 1.0
    case Unrecognised => 0.0
  }

  /** The duration word is matched without regard to case. */
  lemma {:induction false} ClassIgnoresCase(leaveDuration: string)
    ensures ClassOf(Lower(leaveDuration)) == ClassOf(leaveDuration)
  {
    LowerIdempotent(leaveDuration);
  }

  /** What each class amounts to: the inclusive day count ignores the time of
      day, and an hourly leave counts its elapsed hours over ten. */
  lemma EquivalentLeaveDaysByClass(leaveDuration: string, start: Instant, end: Instant)
    ensures ClassOf(leaveDuration) == HalfDay ==> EquivalentLeaveDays(leaveDuration, start, end) == 0.5
    ensures ClassOf(leaveDuration) in {FullDay, MultipleDay} ==>
              EquivalentLeaveDays(leaveDuration, start, end) == (end.day - start.day + 1) as real
    ensures ClassOf(leaveDuration) == Hourly ==>
              EquivalentLeaveDays(leaveDuration, start, end) * 36_000_000.0 == ElapsedMs(start, end) as real
    ensures ClassOf(leaveDuration) == Unrecognised ==> EquivalentLeaveDays(leaveDuration, start, end) == 0.0
  {
    var days := end.day - start.day;
    assert ElapsedMs(Midnight(start), Midnight(end)) == days * MsPerDay;
    assert (days * MsPerDay) as real / MsPerDay as real == days as real by {
      assert (days * MsPerDay) as real == days as real * MsPerDay as real;
    }
  }

  /** Moving either end within its day does not change a full-day or
      multiple-day leave's length. */
  lemma DayCountIgnoresTimeOfDay(leaveDuration: string, start: Instant, end: Instant, start': Instant, end': Instant)
    requires ClassOf(leaveDuration) in {FullDay, MultipleDay}
    requires start'.day == start.day && end'.day == end.day
    ensures EquivalentLeaveDays(leaveDuration, start', end') == EquivalentLeaveDays(leaveDuration, start, end)
  {
    EquivalentLeaveDaysByClass(leaveDuration, start, end);
    EquivalentLeaveDaysByClass(leaveDuration, start', end');
  }

  // ---------------------------------------------------------------------------
  // Paid allowance and deduction

  /** The figures derived from the allowance and the month's total. */
  datatype Assessment = Assessment(
    totalUsedLeaves: real,
    remainingPaidLeaves: real,
    unpaidDays: real,
    deductionPerDay: real,
    salaryDeduction: real)

  /** Adds the request's days to the days used this month and prices what
      exceeds the paid allowance by the salary slab. */
  function Assess(monthlySalary: real, paidLeaves: int, usedLeaves: real, equivalentLeaveDays: real): (a: Assessment)
    ensures a.totalUsedLeaves == usedLeaves + equivalentLeaveDays
    ensures a.unpaidDays >= 0.0 && a.remainingPaidLeaves >= 0.0
    ensures a.remainingPaidLeaves - a.unpaidDays == paidLeaves as real - a.totalUsedLeaves
  {
    var total := usedLeaves + equivalentLeaveDays;
    var remaining := if paidLeaves as real - total > 0.0 then paidLeaves as real - total else 0.0;
    if total > paidLeaves as real then
      var unpaid := total - paidLeaves as real;
      var perDay := LeaveDeductionRate(monthlySalary);
      Assessment(total, remaining, unpaid, perDay, perDay * unpaid)
    else
      Assessment(total, remaining, 0.0, 0.0, 0.0)
  }

  /** Unpaid days are `max(0, total - allowance)`, remaining paid leaves are
      `max(allowance - total, 0)`, and at most one of them is positive. */
  lemma AssessBalance(monthlySalary: real, paidLeaves: int, usedLeaves: real, equivalentLeaveDays: real)
    ensures var a := Assess(monthlySalary, paidLeaves, usedLeaves, equivalentLeaveDays);
      && a.unpaidDays == (if a.totalUsedLeaves > paidLeaves as real then a.totalUsedLeaves - paidLeaves as real else 0.0)
      && a.remainingPaidLeaves == (if paidLeaves as real > a.totalUsedLeaves then paidLeaves as real - a.totalUsedLeaves else 0.0)
      && !(a.unpaidDays > 0.0 && a.remainingPaidLeaves > 0.0)
  {
  }

  /** Within the allowance nothing is deducted; beyond it the deduction is the
      slab's per-day rate times the unpaid days. */
  lemma AssessDeduction(monthlySalary: real, paidLeaves: int, usedLeaves: real, equivalentLeaveDays: real)
    ensures var a := Assess(monthlySalary, paidLeaves, usedLeaves, equivalentLeaveDays);
      && (a.totalUsedLeaves <= paidLeaves as real ==>
            a.unpaidDays == 0.0 && a.deductionPerDay == 0.0 && a.salaryDeduction == 0.0)
      && (a.totalUsedLeaves > paidLeaves as real ==>
            a.deductionPerDay == LeaveDeductionRate(monthlySalary)
            && a.salaryDeduction == a.deductionPerDay * a.unpaidDays)
  {
  }

  /** For a fixed salary, allowance and days already used, the deduction is
      nonnegative and grows with the requested days. */
  lemma DeductionMonotone(monthlySalary: real, paidLeaves: int, usedLeaves: real, e1: real, e2: real)
    requires e1 <= e2
    ensures 0.0 <= Assess(monthlySalary, paidLeaves, usedLeaves, e1).salaryDeduction
    ensures Assess(monthlySalary, paidLeaves, usedLeaves, e1).salaryDeduction
            <= Assess(monthlySalary, paidLeaves, usedLeaves, e2).salaryDeduction
  {
    var rate := LeaveDeductionRate(monthlySalary);
    assert rate >= 0.0;
    var u1 := Assess(monthlySalary, paidLeaves, usedLeaves, e1).unpaidDays;
    var u2 := Assess(monthlySalary, paidLeaves, usedLeaves, e2).unpaidDays;
    assert u1 <= u2;
    assert rate * u1 <= rate * u2;
  }

  /** Salary 8000 with an allowance of 3 and 5 days used: 2 unpaid days at 1400. */
  lemma ScenarioTwoUnpaidDays()
    ensures var a := Assess(8000.0, 3, 5.0, 0.0);
      a.unpaidDays == 2.0 && a.deductionPerDay == 1400.0 && a.salaryDeduction == 2800.0
  {
  }

  // ---------------------------------------------------------------------------
  // The /salary-deduction route

  /** Leave days already recorded for the employee this month: the sum of
      `leavestaken` over the employee's rows whose start date is in the month. */
  function UsedLeaves(leaves: LeaveTable, employeeId: int, year: int, month: int): (r: real)
    ensures (forall i :: 0 <= i < |leaves| ==> leaves[i].val.leavesTaken >= 0.0) ==> r >= 0.0
    ensures (forall i :: 0 <= i < |leaves| ==>
               !(leaves[i].val.employeeId == Some(employeeId) && InMonth(leaves[i].val.startDate, year, month)))
            ==> r == 0.0
    decreases |leaves|
  {
    if |leaves| == 0 then 0.0
    else
      assert forall i :: 1 <= i < |leaves| ==> leaves[1..][i - 1] == leaves[i];
      var l := leaves[0].val;
      (if l.employeeId == Some(employeeId) && InMonth(l.startDate, year, month) then l.leavesTaken else 0.0)
      + UsedLeaves(leaves[1..], employeeId, year, month)
  }

  /** An applied leave adds its `leavestaken` to the month's used days exactly
      when it belongs to the employee and starts in that month. */
  lemma {:induction false} UsedLeavesAfterAppend(leaves: LeaveTable, row: Entry<int, Leave>, employeeId: int, year: int, month: int)
    ensures UsedLeaves(leaves + [row], employeeId, year, month)
         == UsedLeaves(leaves, employeeId, year, month)
            + (if row.val.employeeId == Some(employeeId) && InMonth(row.val.startDate, year, month)
               then row.val.leavesTaken else 0.0)
    decreases |leaves|
  {
    if |leaves| > 0 {
      assert (leaves + [row])[1..] == leaves[1..] + [row];
      UsedLeavesAfterAppend(leaves[1..], row, employeeId, year, month);
    }
  }

  datatype DeductionRequest = DeductionRequest(
    employeeId: int,
    employeeName: string,
    department: string,
    leaveDuration: string,
    startDate: Instant,
    endDate: Instant)

  datatype DeductionReport = DeductionReport(
    employeeId: int,
    employeeName: string,
    department: string,
    monthlySalary: real,
    workingDays: int,
    equivalentLeaveDays: real,
    usedLeaves: real,
    paidLeaves: int,
    assessment: Assessment)

  datatype DeductionError = EmployeeNotFound | NoLeavePolicy

  /** The answer of `/salary-deduction` in month (`year`, `month`): an unknown
      employee or a missing leave policy answers "not found" and computes nothing. */
  function SalaryDeduction(employees: EmployeeTable, policies: PolicyTable, leaves: LeaveTable,
                           req: DeductionRequest, year: int, month: int): (r: Result<DeductionReport, DeductionError>)
    requires 1 <= month <= 12
    ensures r == Err(EmployeeNotFound) <==> req.employeeId !in Keys(employees)
    ensures r == Err(NoLeavePolicy) <==> req.employeeId in Keys(employees) && req.employeeId !in Keys(policies)
    ensures r.Ok? ==>
      && r.value.employeeId == req.employeeId
      && r.value.employeeName == req.employeeName && r.value.department == req.department
      && Lookup(employees, req.employeeId).Some?
      && r.value.monthlySalary == Lookup(employees, req.employeeId).value.monthlySalary
      && Lookup(policies, req.employeeId) == Some(r.value.paidLeaves)
      && r.value.workingDays == DaysInMonth(year, month) - 4
      && r.value.usedLeaves == UsedLeaves(leaves, req.employeeId, year, month)
      && r.value.equivalentLeaveDays == EquivalentLeaveDays(req.leaveDuration, req.startDate, req.endDate)
      && r.value.assessment == Assess(r.value.monthlySalary, r.value.paidLeaves, r.value.usedLeaves,
                                      r.value.equivalentLeaveDays)
  {
    match Lookup(employees, req.employeeId)
    case None => Err(EmployeeNotFound)
    case Some(e) =>
      match Lookup(policies, req.employeeId)
      case None => Err(NoLeavePolicy)
      case Some(paidLeaves) =>
        var equivalent := EquivalentLeaveDays(req.leaveDuration, req.startDate, req.endDate);
        var used := UsedLeaves(leaves, req.employeeId, year, month);
        Ok(DeductionReport(req.employeeId, req.employeeName, req.department, e.monthlySalary,
                           DaysInMonth(year, month) - 4, equivalent, used, paidLeaves,
                           Assess(e.monthlySalary, paidLeaves, used, equivalent)))
  }

  /** A leave recorded for the employee in the month does not lower the
      deduction a later request is quoted: the used days grow by its
      `leavestaken` and the deduction does not fall; a leave of another
      employee or month changes nothing; the answer's kind stays the same. */
  lemma RecordedLeaveRaisesDeduction(employees: EmployeeTable, policies: PolicyTable, leaves: LeaveTable,
                                     row: Entry<int, Leave>, req: DeductionRequest, year: int, month: int)
    requires 1 <= month <= 12
    requires row.val.leavesTaken >= 0.0
    ensures var before := SalaryDeduction(employees, policies, leaves, req, year, month);
            var after := SalaryDeduction(employees, policies, leaves + [row], req, year, month);
      && (before.Ok? <==> after.Ok?)
      && (!before.Ok? ==> after == before)
      && (before.Ok? ==>
            && after.value.usedLeaves
               == before.value.usedLeaves
                  + (if row.val.employeeId == Some(req.employeeId) && InMonth(row.val.startDate, year, month)
                     then row.val.leavesTaken else 0.0)
            && before.value.assessment.salaryDeduction <= after.value.assessment.salaryDeduction)
  {
    UsedLeavesAfterAppend(leaves, row, req.employeeId, year, month);
    var before := SalaryDeduction(employees, policies, leaves, req, year, month);
    var after := SalaryDeduction(employees, policies, leaves + [row], req, year, month);
    if before.Ok? {
      var b, a := before.value.assessment, after.value.assessment;
      var rate := LeaveDeductionRate(before.value.monthlySalary);
      assert rate >= 0.0;
      assert b.totalUsedLeaves <= a.totalUsedLeaves;
      assert b.unpaidDays <= a.unpaidDays;
      assert rate * b.unpaidDays <= rate * a.unpaidDays;
    }
  }

  // ---------------------------------------------------------------------------
  // The leaves table: /add, /update-status, /delete

  /** The body of `/add`; an absent field is None. */
  datatype LeaveRequest = LeaveRequest(
    employeeId: Option<int>,
    employeeName: Option<string>,
    department: Option<string>,
    leaveType: Option<string>,
    startDate: Option<Date>,
    endDate: Option<Date>,
    leaveHours: Option<real>,
    reason: Option<string>,
    status: Option<string>,
    leavesTaken: Option<real>,
    leavesDuration: Option<string>,
    salaryDeduction: Option<real>)

  /** The validation of `/add`: the five required fields are all given. */
  predicate HasRequiredFields(req: LeaveRequest) {
    Filled(req.employeeName) && Filled(req.department) && Filled(req.leaveType)
    && req.startDate.Some? && req.endDate.Some?
  }

  /** The row `/add` inserts: falsy optional fields become NULL, and status,
      `leavestaken` and `salary_deduction` default to 'Pending', 0 and 0. */
  function NewLeave(req: LeaveRequest): (l: Leave)
    requires HasRequiredFields(req)
    ensures l.employeeName == req.employeeName.value && l.department == req.department.value
    ensures l.leaveType == req.leaveType.value
    ensures l.startDate == req.startDate.value && l.endDate == req.endDate.value
    ensures l.employeeId != Some(0) && l.leaveHours != Some(0.0)
    ensures l.status.Some?
  {
    Leave(
      if req.employeeId == Some(0) then None else req.employeeId,
      req.employeeName.value,
      req.department.value,
      req.leaveType.value,
      req.startDate.value,
      req.endDate.value,
      if req.leaveHours == Some(0.0) then None else req.leaveHours,
      OrNull(req.reason),
      Some(req.status.GetOr("Pending")),
      req.leavesTaken.GetOr(0.0),
      OrNull(req.leavesDuration),
      req.salaryDeduction.GetOr(0.0))
  }

  lemma NewLeaveDefaults(req: LeaveRequest)
    requires HasRequiredFields(req)
    ensures var l := NewLeave(req);
      && (req.status.None? ==> l.status == Some("Pending"))
      && (req.status.Some? ==> l.status == req.status)
      && (req.leavesTaken.None? ==> l.leavesTaken == 0.0)
      && (req.salaryDeduction.None? ==> l.salaryDeduction == 0.0)
  {
  }

  datatype AddOutcome =
    | MissingFields          // 400
    | InvalidDate            // the database refuses the date: 500
    | Added(id: int, leave: Leave)

  class LeavesTable {
    var rows: LeaveTable
    var nextId: int   // the next value of the `id` sequence

    ghost predicate Valid()
      reads this
    {
      UniqueKeys(rows) && forall i :: 0 <= i < |rows| ==> rows[i].key < nextId
    }

    constructor ()
      ensures Valid() && rows == []
    {
      rows := [];
      nextId := 1;
    }

    /** `POST /add`. */
    method Add(req: LeaveRequest) returns (outcome: AddOutcome)
      requires Valid()
      modifies this
      ensures Valid()
      ensures outcome == MissingFields <==> !HasRequiredFields(req)
      ensures outcome == InvalidDate <==>
                HasRequiredFields(req) && !(ValidDate(req.startDate.value) && ValidDate(req.endDate.value))
      ensures outcome.Added? ==>
                && outcome.id == old(nextId) && outcome.leave == NewLeave(req)
                && rows == old(rows) + [Entry(outcome.id, outcome.leave)]
                && nextId == old(nextId) + 1
      ensures !outcome.Added? ==> rows == old(rows) && nextId == old(nextId)
    {
      if !HasRequiredFields(req) {
        return MissingFields;
      }
      if !(ValidDate(req.startDate.value) && ValidDate(req.endDate.value)) {
        return InvalidDate;
      }
      var leave := NewLeave(req);
      assert nextId !in Keys(rows);
      AppendFresh(rows, nextId, leave);
      outcome := Added(nextId, leave);
      rows := rows + [Entry(nextId, leave)];
      nextId := nextId + 1;
    }

    /** `POST /update-status`: sets the status of the row with that id and
        returns the updated row, or None (404) when no row has that id. */
    method UpdateStatus(id: int, status: Option<string>) returns (updated: Option<Leave>)
      requires Valid()
      modifies this
      ensures Valid() && nextId == old(nextId)
      ensures rows == Update(old(rows), id, (l: Leave) => l.(status := status))
      ensures updated.None? <==> id !in Keys(old(rows))
      ensures updated.None? ==> rows == old(rows)
      ensures updated.Some? ==> updated == Some(old(Lookup(rows, id)).value.(status := status))
      ensures forall k :: k != id ==> Lookup(rows, k) == old(Lookup(rows, k))
    {
      var f := (l: Leave) => l.(status := status);
      var before := rows;
      UpdateKeepsKeys(before, id, f);
      UpdateLookup(before, id, f);
      rows := Update(rows, id, f);
      updated := Lookup(rows, id);
      if updated.None? {
        assert rows == before;
      }
      forall k | k != id ensures Lookup(rows, k) == Lookup(before, k) {
        UpdateOtherKey(before, id, f, k);
      }
    }

    /** `DELETE /delete/:id`: removes the row with that id and returns it, or
        None (404) with the table unchanged. */
    method Delete(id: int) returns (deleted: Option<Leave>)
      requires Valid()
      modifies this
      ensures Valid() && nextId == old(nextId)
      ensures deleted == Lookup(old(rows), id)
      ensures deleted.None? ==> rows == old(rows)
      ensures deleted.Some? ==>
                exists i :: 0 <= i < |old(rows)| && old(rows)[i] == Entry(id, deleted.value)
                            && rows == old(rows)[..i] + old(rows)[i + 1..]
    {
      deleted := Lookup(rows, id);
      var before := rows;
      rows := Remove(rows, id);
      if deleted.None? {
        RemoveAbsent(before, id);
      } else {
        var i :| 0 <= i < |before| && before[i] == Entry(id, deleted.value);
        RemoveOne(before, id, i);
      }
      RemoveKeepsUnique(before, id);
    }
  }
}
