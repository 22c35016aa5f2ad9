/** The payslip routes: the monthly listing with unauthorized-leave
    penalties (`/all`), the payslip-status table (`/status`) and the figures
    of the downloadable payslip (`/pdf`). */
module Payslips {
  import opened Common
  import opened Dates
  import opened Keyed
  import opened Employees
  import opened Leaves

  /** A row of the `attendance` table. */
  datatype Attendance = Attendance(employeeId: int, timestamp: Timestamp, status: string)

  /** The key of `payslip_status`: employee, year and month. */
  datatype Period = Period(employeeId: int, year: int, month: int)

  /** `payslip_status`: the stored status, which may be NULL. */
  type StatusTable = seq<Entry<Period, Option<string>>>

  // ---------------------------------------------------------------------------
  // Which leaves belong to a month

  /** The join condition of `/all` and `/pdf`: the leave starts in the month,
      ends in it, or covers it from the first day to the last. */
  predicate LeaveInMonth(l: Leave, year: int, month: int)
    requires 1 <= month <= 12
  {
    InMonth(l.startDate, year, month)
    || InMonth(l.endDate, year, month)
    || (NotAfter(l.startDate, FirstDay(year, month)) && NotAfter(LastDay(year, month), l.endDate))
  }

  /** Some day of the month lies in the closed interval `[start, end]`. */
  ghost predicate OverlapsMonth(start: Date, end: Date, year: int, month: int) {
    exists d: Date :: ValidDate(d) && InMonth(d, year, month) && NotAfter(start, d) && NotAfter(d, end)
  }

  /** For a well-formed leave the join condition is exactly "the leave's
      interval meets the month". */
  lemma LeaveInMonthIffOverlaps(l: Leave, year: int, month: int)
    requires 1 <= month <= 12
    requires ValidDate(l.startDate) && ValidDate(l.endDate) && NotAfter(l.startDate, l.endDate)
    ensures LeaveInMonth(l, year, month) <==> OverlapsMonth(l.startDate, l.endDate, year, month)
  {
    var s, e := l.startDate, l.endDate;
    var first, last := FirstDay(year, month), LastDay(year, month);
    if LeaveInMonth(l, year, month) {
      if InMonth(s, year, month) {
        assert ValidDate(s) && InMonth(s, year, month) && NotAfter(s, s) && NotAfter(s, e);
      } else if InMonth(e, year, month) {
        assert ValidDate(e) && InMonth(e, year, month) && NotAfter(s, e) && NotAfter(e, e);
      } else {
        assert ValidDate(first) && InMonth(first, year, month) && NotAfter(s, first) && NotAfter(first, e);
      }
    }
    if OverlapsMonth(s, e, year, month) {
      var d :| ValidDate(d) && InMonth(d, year, month) && NotAfter(s, d) && NotAfter(d, e);
      assert NotAfter(first, d) && NotAfter(d, last);
    }
  }

  /** The month condition of the cancelled-leaves query: only the first two
      parts of the join condition. */
  predicate CancelledWindowInMonth(l: Leave, year: int, month: int) {
    InMonth(l.startDate, year, month) || InMonth(l.endDate, year, month)
  }

  /** A leave the cancelled-leaves query picks is one the deductions join picks;
      a leave that starts before the month and ends after it is picked only
      by the join. */
  lemma CancelledWindowNarrower(l: Leave, year: int, month: int)
    requires 1 <= month <= 12
    requires ValidDate(l.startDate) && ValidDate(l.endDate)
    ensures CancelledWindowInMonth(l, year, month) ==> LeaveInMonth(l, year, month)
    ensures Before(l.startDate, FirstDay(year, month)) && Before(LastDay(year, month), l.endDate) ==>
              LeaveInMonth(l, year, month) && !CancelledWindowInMonth(l, year, month)
  {
  }

  // ---------------------------------------------------------------------------
  // Deductions: MAX in `/all`, SUM in `/pdf`

  /** The employee's leaves that the join attaches to the month, in table order. */
  function MonthLeaves(leaves: LeaveTable, employeeId: int, year: int, month: int): (r: seq<Leave>)
    requires 1 <= month <= 12
    ensures forall x :: x in r ==> x.employeeId == Some(employeeId) && LeaveInMonth(x, year, month)
    ensures forall i :: 0 <= i < |leaves| ==>
              (leaves[i].val.employeeId == Some(employeeId) && LeaveInMonth(leaves[i].val, year, month)
               ==> leaves[i].val in r)
    decreases |leaves|
  {
    if |leaves| == 0 then []
    else
      var rest := MonthLeaves(leaves[1..], employeeId, year, month);
      assert forall i :: 1 <= i < |leaves| ==> leaves[i] == leaves[1..][i - 1];
      var l := leaves[0].val;
      if l.employeeId == Some(employeeId) && LeaveInMonth(l, year, month) then [l] + rest else rest
  }

  /** A row appended to the table joins the month's group, at its end, exactly
      when it is the employee's and meets the join condition; rows already in
      the group stay, each as many times as before. */
  lemma {:induction false} MonthLeavesAfterAppend(leaves: LeaveTable, row: Entry<int, Leave>,
                                                  employeeId: int, year: int, month: int)
    requires 1 <= month <= 12
    ensures MonthLeaves(leaves + [row], employeeId, year, month)
         == MonthLeaves(leaves, employeeId, year, month)
            + (if row.val.employeeId == Some(employeeId) && LeaveInMonth(row.val, year, month)
               then [row.val] else [])
    decreases |leaves|
  {
    if |leaves| == 0 {
      assert [row][1..] == [];
    } else {
      assert (leaves + [row])[1..] == leaves[1..] + [row];
      MonthLeavesAfterAppend(leaves[1..], row, employeeId, year, month);
    }
  }

  /** `MAX(l.salary_deduction)` over a nonempty group. */
  function MaxDeduction(xs: seq<Leave>): (r: real)
    requires |xs| > 0
    ensures forall x :: x in xs ==> x.salaryDeduction <= r
    ensures exists x :: x in xs && x.salaryDeduction == r
    decreases |xs|
  {
    if |xs| == 1 then xs[0].salaryDeduction
    else
      var m := MaxDeduction(xs[1..]);
      assert forall x :: x in xs ==> x == xs[0] || x in xs[1..];
      if xs[0].salaryDeduction >= m then xs[0].salaryDeduction else m
  }

  /** `COALESCE(MAX(l.salary_deduction), 0)`. */
  function Deductions(xs: seq<Leave>): (r: real)
    ensures |xs| == 0 ==> r == 0.0
    ensures forall x :: x in xs ==> x.salaryDeduction <= r
    ensures |xs| > 0 ==> exists x :: x in xs && x.salaryDeduction == r
  {
    if |xs| == 0 then 0.0 else MaxDeduction(xs)
  }

  /** `COALESCE(SUM(l.salary_deduction), 0)`: 0 for an empty group, and never
      negative when no deduction is. */
  function SumDeductions(xs: seq<Leave>): (r: real)
    ensures |xs| == 0 ==> r == 0.0
    ensures (forall x :: x in xs ==> x.salaryDeduction >= 0.0) ==> r >= 0.0
    decreases |xs|
  {
    if |xs| == 0 then 0.0
    else
      assert forall x :: x in xs[1..] ==> x in xs;
      xs[0].salaryDeduction + SumDeductions(xs[1..])
  }

  /** The sum over two groups put together is the sum of their sums. */
  lemma {:induction false} SumDeductionsAppend(xs: seq<Leave>, ys: seq<Leave>)
    ensures SumDeductions(xs + ys) == SumDeductions(xs) + SumDeductions(ys)
    decreases |xs|
  {
    if |xs| == 0 {
      assert xs + ys == ys;
    } else {
      assert (xs + ys)[1..] == xs[1..] + ys;
      SumDeductionsAppend(xs[1..], ys);
    }
  }

  /** With nonnegative deductions the sum is at least the maximum. */
  lemma {:induction false} MaxAtMostSum(xs: seq<Leave>)
    requires |xs| > 0
    requires forall x :: x in xs ==> x.salaryDeduction >= 0.0
    ensures MaxDeduction(xs) <= SumDeductions(xs)
    decreases |xs|
  {
    assert forall x :: x in xs[1..] ==> x in xs;
    if |xs| > 1 {
      MaxAtMostSum(xs[1..]);
    }
  }

  // ---------------------------------------------------------------------------
  // Unauthorized leaves

  predicate IsCancelled(l: Leave) {
    l.status.Some? && Lower(l.status.value) == "cancelled"
  }

  /** The cancelled-leaves query of `/all`, in table order. */
  function CancelledLeaves(leaves: LeaveTable, employeeId: int, year: int, month: int): (r: seq<Leave>)
    ensures forall x :: x in r ==> x.employeeId == Some(employeeId) && IsCancelled(x)
                                   && CancelledWindowInMonth(x, year, month)
    ensures forall i :: 0 <= i < |leaves| ==>
              (leaves[i].val.employeeId == Some(employeeId) && IsCancelled(leaves[i].val)
               && CancelledWindowInMonth(leaves[i].val, year, month)
               ==> leaves[i].val in r)
    decreases |leaves|
  {
    if |leaves| == 0 then []
    else
      var rest := CancelledLeaves(leaves[1..], employeeId, year, month);
      assert forall i :: 1 <= i < |leaves| ==> leaves[i] == leaves[1..][i - 1];
      var l := leaves[0].val;
      if l.employeeId == Some(employeeId) && IsCancelled(l) && CancelledWindowInMonth(l, year, month)
      then [l] + rest else rest
  }

  /** A row appended to the table joins the cancelled leaves, at their end,
      exactly when it is the employee's, cancelled, and starts or ends in the
      month. */
  lemma {:induction false} CancelledLeavesAfterAppend(leaves: LeaveTable, row: Entry<int, Leave>,
                                                      employeeId: int, year: int, month: int)
    ensures CancelledLeaves(leaves + [row], employeeId, year, month)
         == CancelledLeaves(leaves, employeeId, year, month)
            + (if row.val.employeeId == Some(employeeId) && IsCancelled(row.val)
                  && CancelledWindowInMonth(row.val, year, month)
               then [row.val] else [])
    decreases |leaves|
  {
    if |leaves| == 0 {
      assert [row][1..] == [];
    } else {
      assert (leaves + [row])[1..] == leaves[1..] + [row];
      CancelledLeavesAfterAppend(leaves[1..], row, employeeId, year, month);
    }
  }

  /** The penalty per unauthorized day: the same bands as the leave deduction. */
  function UnauthorizedPenaltyRate(salary: real): (rate: real)
    ensures rate >= 0.0
  {
    match BandOf(salary)
    case Low => 35.0
    case Middle => 70.0
    case High => 105.0
    case NoBand => 0.0
  }

  lemma UnauthorizedPenaltySlab(salary: real)
    ensures UnauthorizedPenaltyRate(salary) == 35.0 <==> 4500.0 <= salary <= 7500.0
    ensures UnauthorizedPenaltyRate(salary) == 70.0 <==> 7501.0 <= salary <= 9500.0
    ensures UnauthorizedPenaltyRate(salary) == 105.0 <==> salary >= 9501.0
    ensures UnauthorizedPenaltyRate(salary) == 0.0 <==>
              salary < 4500.0 || (7500.0 < salary < 7501.0) || (9500.0 < salary < 9501.0)
  {
  }

  /** The attendance query's window: `timestamp >= start::date AND timestamp <= end::date`. */
  predicate InLeaveWindow(a: Attendance, l: Leave) {
    AtOrAfterMidnight(a.timestamp, l.startDate) && AtOrBeforeMidnight(a.timestamp, l.endDate)
  }

  predicate CountsAsOffDuty(a: Attendance, employeeId: int, l: Leave) {
    a.employeeId == employeeId && Lower(a.status) == "off duty" && InLeaveWindow(a, l)
  }

  /** `COUNT(*)` of the employee's 'Off Duty' rows inside the leave window. */
  function OffDutyCount(attendance: seq<Attendance>, employeeId: int, l: Leave): (n: nat)
    ensures n <= |attendance|
    decreases |attendance|
  {
    if |attendance| == 0 then 0
    else (if CountsAsOffDuty(attendance[0], employeeId, l) then 1 else 0)
         + OffDutyCount(attendance[1..], employeeId, l)
  }

  /** An attendance row appended to the table adds one to the count exactly
      when it is the employee's 'Off Duty' row inside the leave window. */
  lemma {:induction false} OffDutyCountAfterAppend(attendance: seq<Attendance>, a: Attendance, employeeId: int, l: Leave)
    ensures OffDutyCount(attendance + [a], employeeId, l)
         == OffDutyCount(attendance, employeeId, l) + (if CountsAsOffDuty(a, employeeId, l) then 1 else 0)
    decreases |attendance|
  {
    if |attendance| == 0 {
      assert [a][1..] == [];
    } else {
      assert (attendance + [a])[1..] == attendance[1..] + [a];
      OffDutyCountAfterAppend(attendance[1..], a, employeeId, l);
    }
  }

  /** The end date's midnight closes the window: an 'Off Duty' row later on
      the leave's last day is not counted. */
  lemma OffDutyWindowEndsAtLastMidnight(a: Attendance, l: Leave)
    requires a.timestamp.date == l.endDate && a.timestamp.msOfDay > 0
    ensures !InLeaveWindow(a, l)
  {
  }

  /** What one cancelled leave adds: half a day for a half-day leave, else its
      'Off Duty' count. */
  function LeaveUnauthorized(l: Leave, attendance: seq<Attendance>, employeeId: int): (u: real)
    ensures u >= 0.0
  {
    if Lower(l.leaveType) == "halfday" then 0.5
    else OffDutyCount(attendance, employeeId, l) as real
  }

  /** `unauthorizedLeaves` after the loop over `cancelled`. */
  function Unauthorized(cancelled: seq<Leave>, attendance: seq<Attendance>, employeeId: int): (u: real)
    ensures u >= 0.0
    decreases |cancelled|
  {
    if |cancelled| == 0 then 0.0
    else Unauthorized(cancelled[..|cancelled| - 1], attendance, employeeId)
         + LeaveUnauthorized(cancelled[|cancelled| - 1], attendance, employeeId)
  }

  /** The inner loop of `/all`. */
  method CountUnauthorized(cancelled: seq<Leave>, attendance: seq<Attendance>, employeeId: int) returns (u: real)
    ensures u == Unauthorized(cancelled, attendance, employeeId)
  {
    u := 0.0;
    for i := 0 to |cancelled|
      invariant u == Unauthorized(cancelled[..i], attendance, employeeId)
    {
      var leave := cancelled[i];
      if Lower(leave.leaveType) == "halfday" {
        u := u + 0.5;
      } else {
        var offDutyDays := OffDutyCount(attendance, employeeId, leave);
        u := u + offDutyDays as real;
      }
      assert cancelled[..i + 1][..i] == cancelled[..i];
    }
    assert cancelled[..|cancelled|] == cancelled;
  }

  /** A cancelled half-day leave with no attendance counts half a day. */
  lemma ScenarioCancelledHalfDay(l: Leave, employeeId: int)
    requires Lower(l.leaveType) == "halfday"
    ensures Unauthorized([l], [], employeeId) == 0.5
  {
    assert [l][..0] == [];
  }

  // ---------------------------------------------------------------------------
  // The listing of `/all`

  datatype Payslip = Payslip(
    employeeId: int,
    employee: string,
    designation: string,
    basicSalary: real,
    deductions: real,
    netPay: real,
    year: int,
    month: int,
    status: string,
    unauthorizedLeaves: real,
    unauthorizedPenalty: real)

  /** `COALESCE(ps.status, 'pending')` of the listing's join. */
  function ListedStatus(statuses: StatusTable, employeeId: int, year: int, month: int): (s: string)
    ensures Lookup(statuses, Period(employeeId, year, month)).None? ==> s == "pending"
    ensures Lookup(statuses, Period(employeeId, year, month)) == Some(None) ==> s == "pending"
    ensures forall t :: Lookup(statuses, Period(employeeId, year, month)) == Some(Some(t)) ==> s == t
  {
    var row := Lookup(statuses, Period(employeeId, year, month));
    if row.Some? && row.value.Some? then row.value.value else "pending"
  }

  /** A row of the listing query, before the loop adds the penalty. */
  function ListedSlip(e: Entry<int, Employee>, leaves: LeaveTable, statuses: StatusTable, year: int, month: int): Payslip
    requires 1 <= month <= 12
  {
    var d := Deductions(MonthLeaves(leaves, e.key, year, month));
    Payslip(e.key, e.val.fullName, e.val.role, e.val.monthlySalary, d, e.val.monthlySalary - d,
            year, month, ListedStatus(statuses, e.key, year, month), 0.0, 0.0)
  }

  /** The penalty for `days` unauthorized days at `rate` a day. */
  function Penalty(days: real, rate: real): (p: real)
    ensures days >= 0.0 && rate >= 0.0 ==> p >= 0.0
  {
    days * rate
  }

  /** The loop's update of one listing row: the unauthorized-leave count of
      the slip's employee, its penalty, and the net pay less the penalty. */
  function WithUnauthorized(slip: Payslip, leaves: LeaveTable, attendance: seq<Attendance>,
                            year: int, month: int): (r: Payslip)
    ensures r.unauthorizedLeaves == Unauthorized(CancelledLeaves(leaves, slip.employeeId, year, month),
                                                 attendance, slip.employeeId)
    ensures r.unauthorizedPenalty == Penalty(r.unauthorizedLeaves, UnauthorizedPenaltyRate(slip.basicSalary))
    ensures r.unauthorizedLeaves >= 0.0 && r.unauthorizedPenalty >= 0.0
    ensures r.netPay == slip.basicSalary - slip.deductions - r.unauthorizedPenalty
    ensures r.(unauthorizedLeaves := slip.unauthorizedLeaves, unauthorizedPenalty := slip.unauthorizedPenalty,
               netPay := slip.netPay) == slip
  {
    var u := Unauthorized(CancelledLeaves(leaves, slip.employeeId, year, month), attendance, slip.employeeId);
    var rate := UnauthorizedPenaltyRate(slip.basicSalary);
    var penalty := Penalty(u, rate);
    slip.(unauthorizedLeaves := u, unauthorizedPenalty := penalty,
          netPay := slip.basicSalary - slip.deductions - penalty)
  }

  /** The employee's payslip as `/all` answers it: the listing row with the
      unauthorized-leave count, its penalty and the net pay overwritten. */
  function PayslipFor(e: Entry<int, Employee>, leaves: LeaveTable, attendance: seq<Attendance>,
                      statuses: StatusTable, year: int, month: int): (p: Payslip)
    requires 1 <= month <= 12
    ensures p.employeeId == e.key && p.employee == e.val.fullName && p.designation == e.val.role
    ensures p.basicSalary == e.val.monthlySalary && p.year == year && p.month == month
    ensures p.unauthorizedLeaves == Unauthorized(CancelledLeaves(leaves, e.key, year, month), attendance, e.key)
    ensures p.unauthorizedPenalty == Penalty(p.unauthorizedLeaves, UnauthorizedPenaltyRate(e.val.monthlySalary))
    ensures p.netPay == p.basicSalary - p.deductions - p.unauthorizedPenalty
    ensures p.status == ListedStatus(statuses, e.key, year, month)
  {
    WithUnauthorized(ListedSlip(e, leaves, statuses, year, month), leaves, attendance, year, month)
  }

  /** The deductions of a payslip are the largest deduction among the month's
      leaves: no smaller than any of them, one of them when there are any, and
      0 without any. */
  lemma PayslipDeductions(e: Entry<int, Employee>, leaves: LeaveTable, attendance: seq<Attendance>,
                          statuses: StatusTable, year: int, month: int)
    requires 1 <= month <= 12
    ensures var p := PayslipFor(e, leaves, attendance, statuses, year, month);
      && (forall x :: x in MonthLeaves(leaves, e.key, year, month) ==> x.salaryDeduction <= p.deductions)
      && (MonthLeaves(leaves, e.key, year, month) == [] ==> p.deductions == 0.0)
      && (MonthLeaves(leaves, e.key, year, month) != [] ==>
            exists x :: x in MonthLeaves(leaves, e.key, year, month) && x.salaryDeduction == p.deductions)
  {
  }

  /** `GET /all` for month (`year`, `month`): one payslip per employee. */
  method AllPayslips(employees: EmployeeTable, leaves: LeaveTable, attendance: seq<Attendance>,
                     statuses: StatusTable, year: int, month: int) returns (payslips: seq<Payslip>)
    requires 1 <= month <= 12
    ensures |payslips| == |employees|
    ensures forall i :: 0 <= i < |employees| ==>
              payslips[i] == PayslipFor(employees[i], leaves, attendance, statuses, year, month)
  {
    payslips := seq(|employees|, i requires 0 <= i < |employees| =>
                      ListedSlip(employees[i], leaves, statuses, year, month));
    for i := 0 to |payslips|
      invariant |payslips| == |employees|
      invariant forall j :: 0 <= j < i ==>
                  payslips[j] == PayslipFor(employees[j], leaves, attendance, statuses, year, month)
      invariant forall j :: i <= j < |payslips| ==>
                  payslips[j] == ListedSlip(employees[j], leaves, statuses, year, month)
    {
      var slip := FillUnauthorized(payslips[i], leaves, attendance, year, month);
      payslips := payslips[i := slip];
    }
  }

  /** The body of the loop of `/all` for one slip. */
  method FillUnauthorized(slip: Payslip, leaves: LeaveTable, attendance: seq<Attendance>, year: int, month: int)
    returns (filled: Payslip)
    ensures filled == WithUnauthorized(slip, leaves, attendance, year, month)
  {
    var cancelled := CancelledLeaves(leaves, slip.employeeId, year, month);
    var unauthorizedPenalty := UnauthorizedPenaltyRate(slip.basicSalary);
    var unauthorizedLeaves := CountUnauthorized(cancelled, attendance, slip.employeeId);
    var unauthorizedPenaltyTotal := unauthorizedLeaves * unauthorizedPenalty;
    filled := slip.(unauthorizedLeaves := unauthorizedLeaves,
                    unauthorizedPenalty := unauthorizedPenaltyTotal,
                    netPay := slip.basicSalary - slip.deductions - unauthorizedPenaltyTotal);
  }

  /** Net pay is not clamped: a deduction above the salary makes it negative. */
  lemma NetPayCanBeNegative(l: Leave)
    requires l.employeeId == Some(1) && l.startDate == Date(2025, 3, 10) && l.endDate == Date(2025, 3, 10)
    requires l.salaryDeduction == 7000.0 && l.status == Some("Approved")
    ensures PayslipFor(Entry(1, Employee("A", "Nurse", 5000.0)), [Entry(7, l)], [], [], 2025, 3).netPay == -2000.0
  {
    var leaves := [Entry(7, l)];
    assert leaves[1..] == [];
    assert MonthLeaves(leaves, 1, 2025, 3) == [l];
    assert CancelledLeaves(leaves, 1, 2025, 3) == [];
  }

  // ---------------------------------------------------------------------------
  // The payslip document of `/pdf`

  datatype PdfFigures = PdfFigures(fullName: string, role: string, monthlySalary: real, deductions: real, netPay: real)

  datatype PdfError = InvalidPeriod | PayslipNotFound

  /** The figures `/pdf/:year/:month/:employeeId` prints: `make_date` refuses
      a month outside 1..12 or year 0 (500); an unknown employee answers 404. */
  function PdfPayslip(employees: EmployeeTable, leaves: LeaveTable, year: int, month: int, employeeId: int)
    : (r: Result<PdfFigures, PdfError>)
    ensures r == Err(InvalidPeriod) <==> !(1 <= month <= 12) || year == 0
    ensures r == Err(PayslipNotFound) <==> 1 <= month <= 12 && year != 0 && employeeId !in Keys(employees)
    ensures r.Ok? ==>
      && Lookup(employees, employeeId).Some?
      && r.value.fullName == Lookup(employees, employeeId).value.fullName
      && r.value.role == Lookup(employees, employeeId).value.role
      && r.value.monthlySalary == Lookup(employees, employeeId).value.monthlySalary
      && r.value.deductions == SumDeductions(MonthLeaves(leaves, employeeId, year, month))
      && r.value.netPay == r.value.monthlySalary - r.value.deductions
  {
    if !(1 <= month <= 12) || year == 0 then Err(InvalidPeriod)
    else
      match Lookup(employees, employeeId)
      case None => Err(PayslipNotFound)
      case Some(e) =>
        var d := SumDeductions(MonthLeaves(leaves, employeeId, year, month));
        Ok(PdfFigures(e.fullName, e.role, e.monthlySalary, d, e.monthlySalary - d))
  }

  /** With nonnegative leave deductions the document deducts at least what the
      listing deducts (SUM against MAX over the same leaves). */
  lemma PdfDeductsAtLeastListing(e: Entry<int, Employee>, employees: EmployeeTable, leaves: LeaveTable,
                                 attendance: seq<Attendance>, statuses: StatusTable, year: int, month: int)
    requires 1 <= month <= 12 && year != 0
    requires Lookup(employees, e.key) == Some(e.val)
    requires forall i :: 0 <= i < |leaves| ==> leaves[i].val.salaryDeduction >= 0.0
    ensures PdfPayslip(employees, leaves, year, month, e.key).Ok?
    ensures PdfPayslip(employees, leaves, year, month, e.key).value.deductions
            >= PayslipFor(e, leaves, attendance, statuses, year, month).deductions
  {
    var xs := MonthLeaves(leaves, e.key, year, month);
    assert forall x :: x in xs ==> x.salaryDeduction >= 0.0 by {
      MonthLeavesFromTable(leaves, e.key, year, month);
    }
    if |xs| > 0 {
      MaxAtMostSum(xs);
    }
  }

  /** Recording one more leave raises the document's deductions by that
      leave's deduction exactly when the join attaches it to the month, and
      leaves the other figures as they were. */
  lemma PdfDeductionsAfterAppend(employees: EmployeeTable, leaves: LeaveTable, row: Entry<int, Leave>,
                                 year: int, month: int, employeeId: int)
    requires PdfPayslip(employees, leaves, year, month, employeeId).Ok?
    ensures var before := PdfPayslip(employees, leaves, year, month, employeeId).value;
            var after := PdfPayslip(employees, leaves + [row], year, month, employeeId);
      && after.Ok?
      && after.value.(deductions := before.deductions, netPay := before.netPay) == before
      && after.value.deductions
         == before.deductions
            + (if row.val.employeeId == Some(employeeId) && LeaveInMonth(row.val, year, month)
               then row.val.salaryDeduction else 0.0)
  {
    var xs := MonthLeaves(leaves, employeeId, year, month);
    MonthLeavesAfterAppend(leaves, row, employeeId, year, month);
    if row.val.employeeId == Some(employeeId) && LeaveInMonth(row.val, year, month) {
      SumDeductionsAppend(xs, [row.val]);
      assert [row.val][1..] == [];
    } else {
      assert xs + [] == xs;
    }
  }

  /** Every leave the join picks is a row of the table. */
  lemma {:induction false} MonthLeavesFromTable(leaves: LeaveTable, employeeId: int, year: int, month: int)
    requires 1 <= month <= 12
    ensures forall x :: x in MonthLeaves(leaves, employeeId, year, month) ==>
              exists i :: 0 <= i < |leaves| && leaves[i].val == x
    decreases |leaves|
  {
    if |leaves| > 0 {
      MonthLeavesFromTable(leaves[1..], employeeId, year, month);
      forall x | x in MonthLeaves(leaves[1..], employeeId, year, month)
        ensures exists i :: 0 <= i < |leaves| && leaves[i].val == x
      {
        var i :| 0 <= i < |leaves[1..]| && leaves[1..][i].val == x;
        assert leaves[i + 1].val == x;
      }
    }
  }

  // ---------------------------------------------------------------------------
  // The payslip-status table of `/status/:employeeId`

  /** What `GET /status` answers: the stored status (possibly NULL), or
      'pending' when no row exists for the period. */
  function StoredStatus(statuses: StatusTable, employeeId: int, year: int, month: int): (s: Option<string>)
    ensures Period(employeeId, year, month) !in Keys(statuses) ==> s == Some("pending")
    ensures Period(employeeId, year, month) in Keys(statuses) ==>
              exists i :: 0 <= i < |statuses| && statuses[i] == Entry(Period(employeeId, year, month), s)
  {
    Lookup(statuses, Period(employeeId, year, month)).GetOr(Some("pending"))
  }

  /** The listing and the status route agree unless a NULL status was stored,
      which the route reports as NULL and the listing as 'pending'. */
  lemma ListingAgreesWithStatusRoute(statuses: StatusTable, employeeId: int, year: int, month: int)
    ensures StoredStatus(statuses, employeeId, year, month).Some? ==>
              ListedStatus(statuses, employeeId, year, month) == StoredStatus(statuses, employeeId, year, month).value
    ensures StoredStatus(statuses, employeeId, year, month).None? ==>
              ListedStatus(statuses, employeeId, year, month) == "pending"
  {
  }

  /** After setting a status the period reads it back, and only that period's row holds it. */
  lemma {:induction false} SetStatusEffect(statuses: StatusTable, employeeId: int, year: int, month: int, status: Option<string>)
    requires UniqueKeys(statuses)
    ensures var after := Upsert(statuses, Period(employeeId, year, month), status);
      && UniqueKeys(after)
      && StoredStatus(after, employeeId, year, month) == status
      && (forall e, y, m :: Period(e, y, m) != Period(employeeId, year, month) ==>
            StoredStatus(after, e, y, m) == StoredStatus(statuses, e, y, m))
      && Upsert(after, Period(employeeId, year, month), status) == after
  {
    var p := Period(employeeId, year, month);
    UpsertUnique(statuses, p, status);
    UpsertLookup(statuses, p, status);
    UpsertIdempotent(statuses, p, status);
    forall e, y, m | Period(e, y, m) != p
      ensures StoredStatus(Upsert(statuses, p, status), e, y, m) == StoredStatus(statuses, e, y, m)
    {
      UpsertOther(statuses, p, status, Period(e, y, m));
    }
  }

  class PayslipStatusStore {
    var rows: StatusTable

    ghost predicate Valid()
      reads this
    {
      UniqueKeys(rows)
    }

    constructor ()
      ensures Valid() && rows == []
    {
      rows := [];
    }

    /** `POST /status/:employeeId` in month (`year`, `month`). */
    method SetStatus(employeeId: int, year: int, month: int, status: Option<string>)
      requires Valid()
      modifies this
      ensures Valid()
      ensures rows == Upsert(old(rows), Period(employeeId, year, month), status)
      ensures StoredStatus(rows, employeeId, year, month) == status
      ensures forall e, y, m :: Period(e, y, m) != Period(employeeId, year, month) ==>
                StoredStatus(rows, e, y, m) == old(StoredStatus(rows, e, y, m))
    {
      SetStatusEffect(rows, employeeId, year, month, status);
      rows := Upsert(rows, Period(employeeId, year, month), status);
    }

    /** `GET /status/:employeeId` in month (`year`, `month`). */
    method GetStatus(employeeId: int, year: int, month: int) returns (status: Option<string>)
      ensures status == StoredStatus(rows, employeeId, year, month)
    {
      status := StoredStatus(rows, employeeId, year, month);
    }
  }
}
