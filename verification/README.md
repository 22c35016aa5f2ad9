# Hospital HR and pharmacy back end: payroll, reminders, images and bookings

This project is a Dafny model of the rule-bearing parts of an Express and
PostgreSQL back end for a hospital. It covers:

- **Leave salary deduction** (`POST /leaves/salary-deduction`):
  - converts the requested leave into equivalent days: hourly, half-day, full-day or multiple-day;
  - adds the days already taken this month;
  - compares the total with the employee's paid-leave allowance;
  - prices each unpaid day by a three-band salary slab.
- **The leaves table**: `/add` with its required fields and column defaults, `/update-status` and `/delete`.
- **Payslips**:
  - the monthly listing `/all`: the largest leave deduction of the month, plus a penalty for unauthorized (cancelled) leaves counted from 'Off Duty' attendance rows;
  - the downloadable `/pdf` figures, which sum the deductions instead;
  - the payslip-status upsert and read-back.
- **Attendance reminders**: a reminder 15 minutes before the shift starts, kept in a registry of cron jobs with one running job per employee, rescheduled whenever a schedule is saved.
- **Medicine cart and medicine catalogue**:
  - the image URLs kept from an upload of at most five images;
  - the columns an insert defaults;
  - the image-store public id derived from a stored image URL;
  - deletion, which destroys one image per stored URL and then removes the row.
- **Appointment booking**: thirteen required fields, a refusal when the doctor's time slot on that date is already booked, and otherwise an appended row with payment 'pending'.

Database tables are sequences of keyed rows (`Keyed.Entry`). The route
handlers that change a table are class methods over such a sequence, with
`old`-based contracts. The pure computations are functions, and lemmas state
their properties. The current date and time, which the handlers read from the
clock (in the Asia/Kolkata zone for payslips), are parameters. Amounts and
leave days are exact `real`s.

Modules, one per file: `Common` (optional values, JavaScript truthiness,
ASCII lower-casing), `Dates`, `Keyed` (table operations), `Employees`,
`Leaves`, `Payslips`, `Schedule`, `CloudImage` (split, file name, public id,
image URLs), `MedicineCart`, `Medicines`, `Appointments`.

Points where the model follows the code's exact behaviour:

- The salary slabs compare a decimal salary with 4500..7500, 7501..9500 and
  ≥ 9501, exactly as written. A salary strictly between 7500 and 7501, or
  between 9500 and 9501, falls in no band and is charged nothing per day.
  `Leaves.FractionalSalaryFallsBetweenBands` records this. On whole salaries
  the slab is monotone.
- `GET /payslips/status` answers the stored status even when it is NULL,
  while `/all` turns a NULL into 'pending'. `Payslips.ListingAgreesWithStatusRoute`
  states both cases.
- The attendance window of a cancelled leave compares timestamps with
  `end_date::date`, which is midnight at the start of the end day. A row later
  on the end day is not counted (`Payslips.OffDutyWindowEndsAtLastMidnight`).
- A reminder for a shift starting before 00:15 gets hour −1: the code does
  not wrap to the previous day (`Schedule.NoDayWrap`). node-cron refuses an
  hour outside 0..23 or a minute outside 0..59 by throwing, and it does so
  after the employee's old job was already stopped and deleted. Such an
  employee is left without a reminder (`Schedule.RescheduledReplaces`).
- Truthiness decides required fields. An appointment with 0 years of
  experience, or age 0, is refused as incomplete (`Appointments.ZeroYearsRefused`).

## Model

| member | source | states |
|---|---|---|
| Leaves.LeaveDeductionSlab | routes/leaves.js:155-162 | deduction per unpaid day is 700 exactly for salary in [4500, 7500], 1400 exactly for [7501, 9500], 2800 exactly from 9501, 0 exactly below 4500 or in the two gaps between bands |
| Leaves.BandMonotoneOnWholeSalaries | routes/leaves.js:156-162 | for whole salaries n1 ≤ n2 the band of n2 is never lower than the band of n1 |
| Leaves.LeaveDeductionRateMonotone | routes/leaves.js:156-162 | for whole salaries the per-day deduction is nondecreasing in the salary |
| Leaves.FractionalSalaryFallsBetweenBands | routes/leaves.js:156-162 | 7500 costs 700 per day while 7500.5 and 9500.5 cost 0 |
| Leaves.ClassIgnoresCase | routes/leaves.js:115-125 | the duration word is classified the same whatever its case |
| Leaves.EquivalentLeaveDays | routes/leaves.js:112-130 | for valid instants with the end not before the start the equivalent days are ≥ 0, and ≥ 1 for a full-day or multiple-day leave |
| Leaves.EquivalentLeaveDaysByClass | routes/leaves.js:112-130 | half-day gives 0.5; full-day and multiple-day give (end day − start day) + 1; hourly gives elapsed hours over 10; any other word 0 |
| Leaves.DayCountIgnoresTimeOfDay | routes/leaves.js:120-129 | moving either end within its day leaves a full-day or multiple-day count unchanged |
| Leaves.Assess | routes/leaves.js:143-166 | total used = used + requested; unpaid and remaining paid days are nonnegative; remaining − unpaid = allowance − total |
| Leaves.AssessBalance | routes/leaves.js:143-153 | unpaid = max(0, total − allowance), remaining = max(allowance − total, 0), never both positive |
| Leaves.AssessDeduction | routes/leaves.js:148-166 | within the allowance unpaid days, per-day rate and deduction are 0; beyond it the deduction is the slab rate times the unpaid days |
| Leaves.DeductionMonotone | routes/leaves.js:142-166 | for fixed salary, allowance and used days, the deduction is ≥ 0 and nondecreasing in the requested days |
| Leaves.ScenarioTwoUnpaidDays | routes/leaves.js:152-165 | salary 8000, allowance 3, 5 days used: 2 unpaid days at 1400, deduction 2800 |
| Leaves.UsedLeaves | routes/leaves.js:133-142 | the month's used days are ≥ 0 when every leavestaken is, and 0 when the employee has no row starting in the month |
| Leaves.UsedLeavesAfterAppend | routes/leaves.js:133-142 | a new leave row adds its leavestaken to the month's used days exactly when it is the employee's and starts in that month |
| Leaves.SalaryDeduction | routes/leaves.js:74-187 | unknown employee ⇔ EmployeeNotFound; known employee without policy ⇔ NoLeavePolicy; otherwise the request's id, name and department, the stored salary and allowance, working days = days in month − 4, the used days are UsedLeaves of the month, the requested days EquivalentLeaveDays, and unpaid days, per-day rate and deduction are Assess of those figures |
| Leaves.RecordedLeaveRaisesDeduction | routes/leaves.js:133-166 | recording a leave keeps the answer's kind, adds its leavestaken to the used days exactly when it is the employee's and starts in the month, and never lowers the quoted deduction |
| Leaves.NewLeave | routes/leaves.js:43-60 | the inserted row keeps the five required fields, turns an employee id or leave hours of 0 into NULL, and always has a status |
| Leaves.NewLeaveDefaults | routes/leaves.js:43-60 | status defaults to 'Pending' and keeps a given status; leavestaken and salary_deduction default to 0 |
| Leaves.LeavesTable.Add | routes/leaves.js:6-72 | MissingFields exactly when a required field is falsy; InvalidDate exactly when a date is not a calendar date; otherwise one row appended under a fresh id, keys stay unique |
| Leaves.LeavesTable.UpdateStatus | routes/leaves.js:241-268 | not found ⇔ no row has the id, table unchanged; otherwise only that row's status changes and every other id reads the same |
| Leaves.LeavesTable.Delete | routes/leaves.js:270-294 | returns the deleted row or not found with the table unchanged; a found row is the only one removed, order kept |
| Dates.DaysInMonth | routes/leaves.js:94 | 31 days exactly in months 1, 3, 5, 7, 8, 10, 12; 30 in months 4, 6, 9, 11; February 29 in leap years and 28 otherwise |
| Dates.FirstDay | routes/payslips.js:34 | a valid date of the month not after any date of the month |
| Dates.LastDay | routes/payslips.js:35 | a valid date of the month not before any date of the month |
| Payslips.LeaveInMonth | routes/payslips.js:29-36 | the join condition: the leave starts in the month, ends in it, or starts by its first day and ends by its last (its meaning is LeaveInMonthIffOverlaps) |
| Payslips.LeaveInMonthIffOverlaps | routes/payslips.js:29-36 | for start ≤ end, the join condition holds exactly when some day of the month lies in [start, end] |
| Payslips.CancelledWindowNarrower | routes/payslips.js:59-63 | the cancelled-leave month test implies the join condition; a leave strictly spanning the month passes only the join |
| Payslips.MonthLeaves | routes/payslips.js:26-36 | the month's leaves are exactly the employee's rows meeting the join condition |
| Payslips.MonthLeavesAfterAppend | routes/payslips.js:26-36 | an appended row joins the month's group at its end exactly when it is the employee's and meets the join condition; the group otherwise keeps its rows, duplicates included |
| Payslips.Deductions | routes/payslips.js:22 | 0 without leaves; otherwise ≥ every leave's deduction and equal to one of them |
| Payslips.PayslipDeductions | routes/payslips.js:22-23 | a payslip's deductions are the largest deduction among the month's leaves, or 0 |
| Payslips.UnauthorizedPenaltySlab | routes/payslips.js:68-75 | penalty per day 35, 70, 105 on the same bands, 0 outside them |
| Payslips.CancelledLeaves | routes/payslips.js:54-65 | exactly the employee's cancelled (any case) rows starting or ending in the month |
| Payslips.CancelledLeavesAfterAppend | routes/payslips.js:54-65 | an appended row joins the cancelled leaves at their end exactly when it is the employee's, cancelled and starts or ends in the month |
| Payslips.OffDutyCount | routes/payslips.js:83-93 | at most the number of attendance rows |
| Payslips.OffDutyCountAfterAppend | routes/payslips.js:83-93 | an appended attendance row adds 1 to the count exactly when it is the employee's 'Off Duty' row inside the leave window |
| Payslips.OffDutyWindowEndsAtLastMidnight | routes/payslips.js:88-89 | an attendance row after midnight on the end date is outside the window |
| Payslips.LeaveUnauthorized | routes/payslips.js:79-94 | a cancelled leave adds a nonnegative amount |
| Payslips.Unauthorized | routes/payslips.js:78-95 | the unauthorized days over the cancelled leaves are nonnegative |
| Payslips.CountUnauthorized | routes/payslips.js:78-95 | the loop's total is the sum of 0.5 per half-day leave and the 'Off Duty' count of every other leave |
| Payslips.ScenarioCancelledHalfDay | routes/payslips.js:79-80 | one cancelled half-day leave counts half a day |
| Payslips.WithUnauthorized | routes/payslips.js:48-103 | the unauthorized days are counted over the employee's cancelled leaves of the month, the penalty is days × the salary's slab rate, both are ≥ 0, net pay = basic − deductions − penalty, and no other field of the slip changes |
| Payslips.PayslipFor | routes/payslips.js:16-103 | the slip names the employee, role, salary and period, carries the listed status, counts its unauthorized days over the employee's cancelled leaves of the month, charges days × the salary's slab rate, and its net pay is basic − deductions − penalty, unclamped |
| Payslips.ListedStatus | routes/payslips.js:25 | the stored status when there is one; 'pending' when there is no status row or its status is NULL |
| Payslips.FillUnauthorized | routes/payslips.js:50-103 | the slip's unauthorized days are those of its employee's cancelled leaves, the penalty is those days times the slab rate, net pay is basic − deductions − penalty, the rest of the slip unchanged |
| Payslips.AllPayslips | routes/payslips.js:45-104 | one slip per employee, each the listing row with unauthorized days, penalty and net pay filled in |
| Payslips.NetPayCanBeNegative | routes/payslips.js:103 | salary 5000 with a 7000 deduction gives net pay −2000 |
| Payslips.PdfPayslip | routes/payslips.js:187-216 | InvalidPeriod ⇔ month outside 1..12 or year 0; not found ⇔ unknown employee; otherwise the employee's name, role and salary, deductions = SumDeductions of the month's leaves, net = salary − deductions |
| Payslips.PdfDeductionsAfterAppend | routes/payslips.js:187-205 | recording a leave raises the document's deductions by its deduction exactly when the join attaches it to the month; name, role and salary stay |
| Payslips.SumDeductions | routes/payslips.js:191 | 0 for an empty group; ≥ 0 when no deduction is negative |
| Payslips.SumDeductionsAppend | routes/payslips.js:191 | the sum over two groups put together is the sum of their sums |
| Payslips.MaxAtMostSum | routes/payslips.js:191 | for nonnegative deductions the maximum is at most the sum |
| Payslips.PdfDeductsAtLeastListing | routes/payslips.js:191-192 | for a known employee and nonnegative deductions, the document deducts at least what the listing deducts |
| Payslips.MonthLeavesFromTable | routes/payslips.js:194-205 | every leave the join picks is a row of the table |
| Payslips.StoredStatus | routes/payslips.js:150-172 | no row for the period gives 'pending'; otherwise the stored status of that period's row |
| Payslips.ListingAgreesWithStatusRoute | routes/payslips.js:161-169 | the listing and the status route agree unless a NULL status is stored, which the listing shows as 'pending' |
| Payslips.SetStatusEffect | routes/payslips.js:125-132 | after the upsert one row holds the new status, other periods read the same, repeating it changes nothing |
| Payslips.PayslipStatusStore.SetStatus | routes/payslips.js:114-138 | the table is the upsert of the period; the period reads the new status, others unchanged, keys unique |
| Payslips.PayslipStatusStore.GetStatus | routes/payslips.js:140-177 | the answer is the stored status or 'pending' |
| Schedule.ReminderTime | routes/schedule.js:66-73 | hour × 60 + minute = start hour × 60 + start minute − 15; a start minute in 0..59 gives a minute in 0..59 |
| Schedule.ReminderBorrow | routes/schedule.js:67-73 | from minute 15 the hour is kept and the minute drops by 15; before it the hour drops by 1 and the minute rises by 45 |
| Schedule.ReminderIsClockTimeEarlier | routes/schedule.js:66-73 | for a start minute in 0..59 the reminder is the quotient and remainder by 60 of the start's minutes less 15 |
| Schedule.NoDayWrap | routes/schedule.js:70-84 | 00:10 gives −1:55 and 00:00 gives −1:45, and node-cron refuses −1:55 |
| Schedule.ReminderAcceptedFromQuarterPastMidnight | routes/schedule.js:66-84 | for a start time on the clock, node-cron accepts the reminder time exactly when the shift starts at 00:15 or later |
| Schedule.JobFor | routes/schedule.js:75-84 | the job fires 15 minutes before the row's start time |
| Schedule.Rescheduled | routes/schedule.js:61-104 | whatever the row, no other employee's job changes and the jobs stopped before stay recorded in order |
| Schedule.RescheduledWithoutRow | routes/schedule.js:62-64 | without a schedule row the registry is unchanged |
| Schedule.RescheduledReplaces | routes/schedule.js:77-103 | with a row, the previous job is stopped; if node-cron accepts the reminder time the employee has exactly one job, new, for that time; if it refuses it the employee has none and no job is created |
| Schedule.RescheduledWellFormed | routes/schedule.js:77-103 | every running job is under its own employee and distinct from every other running job and every stopped one |
| Schedule.RescheduledTwice | routes/schedule.js:77-103 | scheduling twice runs the second job and stops the first; with a refused time the second call changes nothing |
| Schedule.SaveScheduleUpserts | routes/schedule.js:42-48 | saving leaves one row per employee, holding the latest values, other rows unchanged |
| Schedule.SavedScheduleDrivesReminder | routes/schedule.js:42-51 | after saving, the employee has a job exactly when node-cron accepts the reminder time of the saved start; that job fires at that time with the saved push token |
| Schedule.RescheduledAll | routes/schedule.js:107-110 | an employee not on the list keeps the job they had, or stays without one |
| Schedule.RescheduledAllKeys | routes/schedule.js:107-110 | after scheduling saved employees, each of them has a job exactly when node-cron accepts their reminder time, and every other employee exactly when they had one |
| Schedule.RescheduledAllTimes | routes/schedule.js:107-110 | after scheduling saved employees, the job each of them has matches their row |
| Schedule.RescheduledAllWellFormed | routes/schedule.js:107-110 | scheduling any sequence of employees keeps the registry well formed |
| Schedule.ReminderService.ScheduleSingleReminder | routes/schedule.js:61-104 | the stop and delete, then the job node-cron creates or refuses, give Rescheduled of the old registry; schedules unchanged |
| Schedule.ReminderService.SetReminder | routes/schedule.js:38-58 | schedules become the upsert of the row, then the employee is rescheduled |
| Schedule.ReminderService.ScheduleAllReminders | routes/schedule.js:107-110 | every saved employee is rescheduled in row order, with RescheduledAll of the old registry as the result |
| CloudImage.Split | routes/medicinecart.js:93 | at least one piece, none containing the separator |
| CloudImage.JoinSplit | routes/medicinecart.js:93 | joining the pieces with the separator gives the string back |
| CloudImage.SplitWithoutSeparator | routes/medicinecart.js:93-94 | a string without the separator is a single piece |
| CloudImage.SplitFirst | routes/medicinecart.js:94 | the first piece is the longest prefix without the separator |
| CloudImage.SplitLast | routes/medicinecart.js:93-94 | the last piece is the longest suffix without the separator |
| CloudImage.FileName | routes/medicinecart.js:93-94 | the file name holds no '/' and no '.' and is no longer than the URL (the same code is routes/medicines.js:95-96) |
| CloudImage.FileNameShape | routes/medicinecart.js:93-95 | the file name has no '/' or '.', and is the longest '.'-free prefix of the URL's last '/'-segment |
| CloudImage.PublicId | routes/medicinecart.js:92-96 | the public id is the folder, '/', then the file name, with no '/' or '.' after the folder (the same function serves routes/medicines.js:94-98) |
| CloudImage.PlainNamePublicId | routes/medicinecart.js:92-96 | a URL without '/' or '.' maps to folder + '/' + url |
| CloudImage.ImageUrls | routes/medicinecart.js:32 | one URL per uploaded file, in upload order |
| CloudImage.PublicIds | routes/medicinecart.js:109-114 | one public id per stored URL, in order |
| Common.OrNull | routes/leaves.js:54-58 | the `or null` default is NULL exactly for an absent or empty field, else the field |
| Common.ParsedOr | routes/medicinecart.js:48-50 | a present non-empty numeric field gives its parsed value, otherwise the default |
| MedicineCart.NewCartItem | routes/medicinecart.js:41-52 | patient and name pass through; images are the uploaded URLs |
| MedicineCart.NewCartItemDefaults | routes/medicinecart.js:43-50 | stock 0 and quantity 1 when absent, price NULL when absent, empty text columns NULL |
| MedicineCart.NewCartItemImages | routes/medicinecart.js:32 | the stored images have the uploads' length and order |
| MedicineCart.CartImageIds | routes/medicinecart.js:106-114 | one destroy per stored URL, of cart_items/ + file name; none for NULL images |
| MedicineCart.CartTable.Add | routes/medicinecart.js:27-63 | more than five images refused with the table unchanged; otherwise one row appended under a fresh id |
| MedicineCart.CartTable.Delete | routes/medicinecart.js:89-124 | not found ⇔ unknown id, nothing changes; otherwise the item's images are destroyed and its row removed |
| MedicineCart.DeleteRemovesOnlyThatRow | routes/medicinecart.js:117 | deleting removes the id and every other id reads the same |
| Medicines.NewMedicine | routes/medicines.js:41-51 | the name passes through; images are the uploaded URLs |
| Medicines.NewMedicineDefaults | routes/medicines.js:43-49 | price NULL when absent and the parsed price when given; stock 0 when absent; empty text columns NULL |
| Medicines.NewMedicineImages | routes/medicines.js:34 | the stored images have the uploads' length and order |
| Medicines.MedicineImageIds | routes/medicines.js:108-116 | one destroy per stored URL, of medicines/ + file name; none for NULL images |
| Medicines.MedicineTable.Add | routes/medicines.js:27-62 | more than five images refused with the table unchanged; otherwise one row appended under a fresh id |
| Medicines.MedicineTable.Get | routes/medicines.js:76-88 | not found ⇔ unknown id; otherwise the row stored under that id |
| Medicines.MedicineTable.Delete | routes/medicines.js:91-126 | not found ⇔ unknown id, nothing changes; otherwise the images are destroyed and the row removed |
| Medicines.DeleteKeepsOthers | routes/medicines.js:119 | a delete removes only that row, keeping the others in order |
| Appointments.RequiredFields | routes/appointment.js:26-27 | the thirteen tested fields |
| Appointments.AllRequiredFieldByField | routes/appointment.js:26-29 | validation passes exactly when each of the thirteen fields is truthy |
| Appointments.SlotBookings | routes/appointment.js:33-34 | exactly the rows holding the doctor's slot on the date |
| Appointments.Book | routes/appointment.js:26-52 | a booking appends the request as sent with payment 'pending'; any other answer leaves the table unchanged |
| Appointments.BookOutcomes | routes/appointment.js:26-38 | missing fields ⇔ a falsy field; already booked ⇔ all fields given and the slot held |
| Appointments.ZeroYearsRefused | routes/appointment.js:26 | 0 years of experience is refused as a missing field |
| Appointments.BookKeepsSlotsDistinct | routes/appointment.js:33-52 | booking keeps (doctor, date, slot) unique |
| Appointments.RebookingRefused | routes/appointment.js:33-38 | the same request again is refused and changes nothing |
| Appointments.BookAllKeepsSlotsDistinct | routes/appointment.js:33-52 | any sequence of bookings keeps (doctor, date, slot) unique |
| Appointments.AppointmentTable.Add | routes/appointment.js:8-62 | the validation, the slot check and the insert give Book's answer and table; the slots stay unique |
| Keyed.Lookup | routes/leaves.js:79-86 | None exactly when no row has the key; otherwise the value of a row with the key |
| Keyed.Upsert | routes/payslips.js:125-130 | the table grows by at most one row and never shrinks |
| Keyed.UpsertLookup | routes/schedule.js:42-48 | reading the key back after an upsert gives the new value |
| Keyed.UpsertUnique | routes/payslips.js:125-130 | the upsert keeps keys unique and holds exactly one row with the key and the new value |
| Keyed.UpsertIdempotent | routes/payslips.js:125-130 | repeating an upsert changes nothing |
| Keyed.Remove | routes/leaves.js:274-278 | no remaining row has the key; the keys are the old ones less that key |
| Keyed.RemoveOne | routes/leaves.js:274-278 | with unique keys, a delete removes exactly the row with the key |
| Keyed.RemoveLookupOther | routes/medicines.js:119 | a delete leaves every other key's lookup unchanged |
| Keyed.Update | routes/leaves.js:247-252 | same length; each row with the key is rewritten by the update, every other row stays |
| Keyed.UpdateOtherKey | routes/leaves.js:247-252 | an update leaves every other key's lookup unchanged |

## Left out

- SQL execution, connection pooling and the network: tables are sequences of rows and each query is a function over them.
- The clock: "now" is given as year and month parameters. The source reads it in three zones: the server's zone (`new Date()` at routes/leaves.js:91-93), the database session's zone (`CURRENT_DATE` at routes/leaves.js:137-138) and Asia/Kolkata (routes/payslips.js:10, 120, 145).
- Leaves.SalaryDeduction: one (year, month) pair stands for both the server's clock and the database's clock, which can disagree near a month boundary. The model does not capture the working days of one month being combined with the used leaves of another.
- Request parsing and JavaScript number coercion: `parseInt`, `parseFloat`, `NaN`, string-versus-number comparison of the salary, and the split of `start_time` into hour and minute are not modelled. Numeric form fields carry their text and parsed value (`Common.Parsed`), and a schedule row carries its start hour and minute.
- Floating point: amounts and days are exact reals, so JavaScript rounding is not modelled.
- Case folding is ASCII only; `toLowerCase()` and `ILIKE` also fold non-ASCII letters.
- `ILIKE` wildcards are not modelled: the patterns 'cancelled' and 'Off Duty' contain none.
- The order of rows: `ORDER BY full_name`, `ORDER BY start_date DESC` and `ORDER BY created_at DESC` are not modelled. Listings follow table order.
- The `to_char(..., 'Month YYYY')` date label of `/all` is not modelled; the slip carries year and month.
- The `/pdf` check for missing path parameters (routes/payslips.js:183-185) is not modelled: Express never routes a request with an empty segment to it.
- PDF rendering (routes/payslips.js:218-239) is not modelled; the model stops at the printed figures.
- Payslips.PayslipFor / Payslips.AllPayslips / Payslips.PdfPayslip: a NULL `monthly_salary` is not modelled; every employee carries a real salary. Registration (routes/employee.js:12-15) never sets the column, so the NULL case is real. In `/all`, `null >= 4500` is false, so the penalty rate is 0, `basicsalary` shows as null and the net pay `null - deductions - 0` comes out as −deductions (routes/payslips.js:68-75, 103). In `/pdf`, `net_pay` is SQL NULL (routes/payslips.js:191) and the document prints "null".
- Leaves.SalaryDeduction: a NULL `monthly_salary` and an absent `leaveDuration` are not modelled. The code throws a TypeError on the latter, answered with 500.
- Leaves.EquivalentLeaveDays: daylight-saving shifts of `setHours` are not modelled; every day is 24 hours.
- `GET /leaves/by-employee/:id` and `GET /leaves/all` are read-only pass-through queries and are not modelled.
- Cron execution, the push-notification HTTP call and the notification insert of a firing reminder are not modelled; a job records the time and push token it would use.
- A reminder's cron expression string is not built; the job keeps its hour and minute. node-cron is not part of this model: its check of the expression is modelled as the ranges 0..23 for the hour and 0..59 for the minute (`Schedule.CronAccepts`).
- Schedule.ReminderService.SetReminder: when node-cron refuses the reminder time, the rejected promise of `scheduleSingleReminder` goes unhandled and the route still answers success; the model has no answer value and leaves the unhandled rejection out.
- Schedule.ReminderService.SetReminder: `scheduleSingleReminder` is not awaited in the source, so its database read may interleave with later requests. The model runs it to completion before answering.
- The registry's JavaScript object keys are strings, so ids 5 and "5" share an entry; the model uses integer ids.
- Image-store uploads and destroys are not performed. A destroy is recorded as the public id it names, and a failing destroy (answered with 500) is not modelled.
- The storage's `allowed_formats` filter and generated upload names are not modelled.
- `GET /cart/all`, `GET /cart/:patient_id` and `GET /medicines/all` are pass-through queries and are not modelled.
- `created_at` and `createdAt` `NOW()` columns are not modelled.
- Appointments.AppointmentTable.Add: the check-then-insert race between concurrent bookings is not modelled; bookings are sequential. Fields compare by value, without SQL's type coercion between a number and its text.
