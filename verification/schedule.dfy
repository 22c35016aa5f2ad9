/** Attendance reminders: the saved shift schedule of each employee, the
    reminder time 15 minutes before the shift starts, and the in-memory
    registry of reminder jobs, which keeps one running job per employee. */
module Schedule {
  import opened Common
  import opened Keyed

  /** A row of `remainderschedules`, keyed by `employee_id`; the start time is
      already split into its hour and minute. */
  datatype ScheduleRow = ScheduleRow(date: string, startHour: int, startMinute: int,
                                     endTime: string, pushToken: Option<string>)

  type ScheduleTable = seq<Entry<int, ScheduleRow>>

  // ---------------------------------------------------------------------------
  // The reminder time

  /** The hour and minute of the daily reminder for a shift starting at
      `hours`:`minutes`: fifteen minutes earlier, borrowing an hour when the
      minute would go below zero. The hour is not wrapped around midnight. */
  function ReminderTime(hours: int, minutes: int): (r: (int, int))
    ensures r.0 * 60 + r.1 == hours * 60 + minutes - 15
    ensures 0 <= minutes <= 59 ==> 0 <= r.1 <= 59
  {
    var reminderMinute := minutes - 15;
    var reminderHour := hours;
    if reminderMinute < 0 then (reminderHour - 1, reminderMinute + 60)
    else (reminderHour, reminderMinute)
  }

  /** From minute 15 on the hour is kept; before it the hour goes back by one
      and the minute moves forward by 45. */
  lemma ReminderBorrow(hours: int, minutes: int)
    ensures minutes >= 15 ==> ReminderTime(hours, minutes) == (hours, minutes - 15)
    ensures minutes < 15 ==> ReminderTime(hours, minutes) == (hours - 1, minutes + 45)
  {
  }

  /** For a start minute in 0..59 the reminder is the clock time fifteen
      minutes earlier, computed by whole-hour division of the minutes of the day. */
  lemma ReminderIsClockTimeEarlier(hours: int, minutes: int)
    requires 0 <= minutes <= 59
    ensures ReminderTime(hours, minutes) ==
              ((hours * 60 + minutes - 15) / 60, (hours * 60 + minutes - 15) % 60)
  {
  }

  /** A shift starting before 00:15 gives a reminder at hour -1, which is no
      hour of the clock. */
  lemma NoDayWrap()
    ensures ReminderTime(0, 10) == (-1, 55)
    ensures ReminderTime(0, 0) == (-1, 45)
    ensures !CronAccepts(ReminderTime(0, 10).0, ReminderTime(0, 10).1)
  {
  }

  /** node-cron's check of the expression `minute hour * * *`: the minute
      must lie in 0..59 and the hour in 0..23, or `cron.schedule` throws. */
  predicate CronAccepts(hour: int, minute: int) {
    0 <= hour <= 23 && 0 <= minute <= 59
  }

  /** For a start time on the clock the reminder is accepted exactly when the
      shift starts at 00:15 or later. */
  lemma ReminderAcceptedFromQuarterPastMidnight(hours: int, minutes: int)
    requires 0 <= hours <= 23 && 0 <= minutes <= 59
    ensures CronAccepts(ReminderTime(hours, minutes).0, ReminderTime(hours, minutes).1)
            <==> hours * 60 + minutes >= 15
  {
  }

  // ---------------------------------------------------------------------------
  // The job registry

  /** A scheduled reminder: `serial` tells the jobs created apart, and the
      job fires daily at `hour`:`minute` for the employee, pushing to
      `pushToken` when there is one. */
  datatype Job = Job(serial: nat, employeeId: int, hour: int, minute: int, pushToken: Option<string>)

  /** The registry `cronJobs` together with what it has done so far: the jobs
      stopped, in order, and the number of jobs created. */
  datatype Registry = Registry(jobs: map<int, Job>, stopped: seq<Job>, created: nat)

  /** Every running job is filed under its own employee and is distinct from
      every other running job and from every stopped one. */
  predicate WellFormed(reg: Registry) {
    && (forall k :: k in reg.jobs ==> reg.jobs[k].employeeId == k && reg.jobs[k].serial < reg.created)
    && (forall i :: 0 <= i < |reg.stopped| ==> reg.stopped[i].serial < reg.created)
    && (forall k, i :: k in reg.jobs && 0 <= i < |reg.stopped| ==> reg.jobs[k].serial != reg.stopped[i].serial)
    && (forall k, k' :: k in reg.jobs && k' in reg.jobs && k != k' ==> reg.jobs[k].serial != reg.jobs[k'].serial)
  }

  /** The job that a schedule row asks for. */
  function JobFor(serial: nat, employeeId: int, row: ScheduleRow): (job: Job)
    ensures job.hour * 60 + job.minute == row.startHour * 60 + row.startMinute - 15
  {
    var (hour, minute) := ReminderTime(row.startHour, row.startMinute);
    Job(serial, employeeId, hour, minute, row.pushToken)
  }

  /** The employee has a schedule row whose reminder time node-cron accepts. */
  predicate Schedulable(schedules: ScheduleTable, employeeId: int) {
    match Lookup(schedules, employeeId)
    case None => false
    case Some(row) => CronAccepts(ReminderTime(row.startHour, row.startMinute).0,
                                  ReminderTime(row.startHour, row.startMinute).1)
  }

  /** `scheduleSingleReminder`: without a schedule row nothing happens;
      otherwise the employee's running job, if any, is stopped and removed,
      and a new job for the row's reminder time takes its place, unless
      node-cron refuses that time, which leaves the employee without a job.
      Whatever happens, no other employee's job changes and the jobs stopped
      before stay recorded. */
  function Rescheduled(reg: Registry, schedules: ScheduleTable, employeeId: int): (r: Registry)
    ensures forall k :: k != employeeId ==> (k in r.jobs <==> k in reg.jobs)
    ensures forall k :: k != employeeId && k in reg.jobs ==> r.jobs[k] == reg.jobs[k]
    ensures |reg.stopped| <= |r.stopped| && r.stopped[..|reg.stopped|] == reg.stopped
  {
    match Lookup(schedules, employeeId)
    case None => reg
    case Some(row) =>
      var stopped := if employeeId in reg.jobs then reg.stopped + [reg.jobs[employeeId]] else reg.stopped;
      var jobs := reg.jobs - {employeeId};
      var job := JobFor(reg.created, employeeId, row);
      if CronAccepts(job.hour, job.minute) then Registry(jobs[employeeId := job], stopped, reg.created + 1)
      else Registry(jobs, stopped, reg.created)
  }

  /** Without a schedule row the registry is left as it was. */
  lemma RescheduledWithoutRow(reg: Registry, schedules: ScheduleTable, employeeId: int)
    requires employeeId !in Keys(schedules)
    ensures Rescheduled(reg, schedules, employeeId) == reg
  {
  }

  /** With a schedule row the job the employee had is stopped. If node-cron
      accepts the reminder time, the employee then has exactly one job, newly
      created for that time; if it refuses it, the employee has none and no
      job is created. */
  lemma RescheduledReplaces(reg: Registry, schedules: ScheduleTable, employeeId: int, row: ScheduleRow)
    requires Lookup(schedules, employeeId) == Some(row)
    ensures var r := Rescheduled(reg, schedules, employeeId);
            var job := JobFor(reg.created, employeeId, row);
      && (employeeId in reg.jobs ==> r.stopped == reg.stopped + [reg.jobs[employeeId]])
      && (employeeId !in reg.jobs ==> r.stopped == reg.stopped)
      && (CronAccepts(job.hour, job.minute) ==>
            && r.jobs.Keys == reg.jobs.Keys + {employeeId}
            && r.jobs[employeeId] == job
            && r.created == reg.created + 1)
      && (!CronAccepts(job.hour, job.minute) ==>
            && r.jobs.Keys == reg.jobs.Keys - {employeeId}
            && r.created == reg.created)
  {
  }

  /** Rescheduling keeps the registry well formed: no employee has two
      running jobs and no stopped job runs again. */
  lemma RescheduledWellFormed(reg: Registry, schedules: ScheduleTable, employeeId: int)
    requires WellFormed(reg)
    ensures WellFormed(Rescheduled(reg, schedules, employeeId))
  {
    var r := Rescheduled(reg, schedules, employeeId);
    if employeeId in Keys(schedules) {
      forall k, i | k in r.jobs && 0 <= i < |r.stopped|
        ensures r.jobs[k].serial != r.stopped[i].serial
      {
        if i < |reg.stopped| {
          assert r.stopped[i] == reg.stopped[i];
        } else {
          assert r.stopped[i] == reg.jobs[employeeId];
        }
      }
    }
  }

  /** Scheduling the same employee twice stops the first job and leaves the
      second running; when node-cron refuses the time, the second call
      changes nothing. */
  lemma RescheduledTwice(reg: Registry, schedules: ScheduleTable, employeeId: int, row: ScheduleRow)
    requires Lookup(schedules, employeeId) == Some(row)
    ensures var r1 := Rescheduled(reg, schedules, employeeId);
            var r2 := Rescheduled(r1, schedules, employeeId);
      && r2.jobs.Keys == r1.jobs.Keys
      && (Schedulable(schedules, employeeId) ==>
            && r2.jobs[employeeId] == JobFor(reg.created + 1, employeeId, row)
            && r2.stopped == r1.stopped + [JobFor(reg.created, employeeId, row)])
      && (!Schedulable(schedules, employeeId) ==> r2 == r1)
  {
    RescheduledReplaces(reg, schedules, employeeId, row);
    RescheduledReplaces(Rescheduled(reg, schedules, employeeId), schedules, employeeId, row);
  }

  /** Saving a schedule and then scheduling the employee runs a job for the
      saved start time, whatever was saved before, exactly when node-cron
      accepts the reminder time; otherwise the employee is left without a job. */
  lemma SavedScheduleDrivesReminder(reg: Registry, schedules: ScheduleTable, employeeId: int, row: ScheduleRow)
    ensures var r := Rescheduled(reg, Upsert(schedules, employeeId, row), employeeId);
            var time := ReminderTime(row.startHour, row.startMinute);
      && (employeeId in r.jobs <==> CronAccepts(time.0, time.1))
      && (employeeId in r.jobs ==>
            (r.jobs[employeeId].hour, r.jobs[employeeId].minute) == time
            && r.jobs[employeeId].pushToken == row.pushToken)
  {
    UpsertLookup(schedules, employeeId, row);
  }

  /** Saving a schedule leaves one row for the employee, carrying the latest
      values, and no other employee's row changes. */
  lemma SaveScheduleUpserts(schedules: ScheduleTable, employeeId: int, row: ScheduleRow)
    requires UniqueKeys(schedules)
    ensures UniqueKeys(Upsert(schedules, employeeId, row))
    ensures Lookup(Upsert(schedules, employeeId, row), employeeId) == Some(row)
    ensures forall k :: k != employeeId ==> Lookup(Upsert(schedules, employeeId, row), k) == Lookup(schedules, k)
  {
    UpsertUnique(schedules, employeeId, row);
    UpsertLookup(schedules, employeeId, row);
    forall k | k != employeeId
      ensures Lookup(Upsert(schedules, employeeId, row), k) == Lookup(schedules, k)
    {
      UpsertOther(schedules, employeeId, row, k);
    }
  }

  /** The employee ids of the schedule rows, in row order. */
  function RowIds(schedules: ScheduleTable): (ids: seq<int>)
    ensures |ids| == |schedules|
    ensures forall i :: 0 <= i < |schedules| ==> ids[i] == schedules[i].key
  {
    seq(|schedules|, i requires 0 <= i < |schedules| => schedules[i].key)
  }

  /** `scheduleAllReminders`: every id in turn. An employee not on the list
      keeps the job they had. */
  function RescheduledAll(reg: Registry, schedules: ScheduleTable, ids: seq<int>): (r: Registry)
    ensures forall k :: k !in ids ==> (k in r.jobs <==> k in reg.jobs)
    ensures forall k :: k !in ids && k in reg.jobs ==> r.jobs[k] == reg.jobs[k]
    decreases |ids|
  {
    if |ids| == 0 then reg
    else
      var init := ids[..|ids| - 1];
      assert forall k :: k !in ids ==> k !in init && k != ids[|ids| - 1] by {
        assert forall i :: 0 <= i < |init| ==> init[i] == ids[i];
      }
      Rescheduled(RescheduledAll(reg, schedules, init), schedules, ids[|ids| - 1])
  }

  /** After scheduling a list of saved employees, each of them has a job
      exactly when node-cron accepts the reminder time of their row, and every
      other employee has a job exactly when they had one before. */
  lemma {:induction false} RescheduledAllKeys(reg: Registry, schedules: ScheduleTable, ids: seq<int>)
    requires forall i :: 0 <= i < |ids| ==> ids[i] in Keys(schedules)
    ensures forall k :: k in RescheduledAll(reg, schedules, ids).jobs <==>
              if k in ids then Schedulable(schedules, k) else k in reg.jobs
    decreases |ids|
  {
    if |ids| > 0 {
      var init := ids[..|ids| - 1];
      var last := ids[|ids| - 1];
      RescheduledAllKeys(reg, schedules, init);
      RescheduledReplaces(RescheduledAll(reg, schedules, init), schedules, last, Lookup(schedules, last).value);
      assert ids == init + [last];
    }
  }

  /** After scheduling a list of saved employees, each of them that has a job
      has one for the start time of their schedule row. */
  lemma {:induction false} RescheduledAllTimes(reg: Registry, schedules: ScheduleTable, ids: seq<int>)
    requires forall i :: 0 <= i < |ids| ==> ids[i] in Keys(schedules)
    ensures forall k :: k in ids && k in RescheduledAll(reg, schedules, ids).jobs ==>
              RescheduledAll(reg, schedules, ids).jobs[k] ==
                JobFor(RescheduledAll(reg, schedules, ids).jobs[k].serial, k, Lookup(schedules, k).value)
    decreases |ids|
  {
    if |ids| > 0 {
      var init := ids[..|ids| - 1];
      var last := ids[|ids| - 1];
      var before := RescheduledAll(reg, schedules, init);
      var after := RescheduledAll(reg, schedules, ids);
      RescheduledAllTimes(reg, schedules, init);
      RescheduledReplaces(before, schedules, last, Lookup(schedules, last).value);
      assert ids == init + [last];
      forall k | k in ids && k in after.jobs
        ensures after.jobs[k] == JobFor(after.jobs[k].serial, k, Lookup(schedules, k).value)
      {
        if k != last {
          assert k in init && k in before.jobs && after.jobs[k] == before.jobs[k];
        }
      }
    }
  }

  /** Scheduling any number of employees keeps the registry well formed. */
  lemma {:induction false} RescheduledAllWellFormed(reg: Registry, schedules: ScheduleTable, ids: seq<int>)
    requires WellFormed(reg)
    ensures WellFormed(RescheduledAll(reg, schedules, ids))
    decreases |ids|
  {
    if |ids| > 0 {
      RescheduledAllWellFormed(reg, schedules, ids[..|ids| - 1]);
      RescheduledWellFormed(RescheduledAll(reg, schedules, ids[..|ids| - 1]), schedules, ids[|ids| - 1]);
    }
  }

  /** The reminder service: the saved schedules and the registry of running
      reminder jobs. */
  class ReminderService {
    var schedules: ScheduleTable
    var cronJobs: map<int, Job>
    var stopped: seq<Job>
    var created: nat

    /** The registry as a value. */
    function State(): Registry
      reads this
    {
      Registry(cronJobs, stopped, created)
    }

    ghost predicate Valid()
      reads this
    {
      UniqueKeys(schedules) && WellFormed(State())
    }

    constructor ()
      ensures Valid() && schedules == [] && cronJobs == map[] && stopped == [] && created == 0
    {
      schedules := [];
      cronJobs := map[];
      stopped := [];
      created := 0;
    }

    /** `scheduleSingleReminder(employeeId)`. */
    method ScheduleSingleReminder(employeeId: int)
      requires Valid()
      modifies this
      ensures Valid()
      ensures schedules == old(schedules)
      ensures State() == Rescheduled(old(State()), schedules, employeeId)
    {
      RescheduledWellFormed(State(), schedules, employeeId);
      var row := Lookup(schedules, employeeId);
      if row.None? {
        return;
      }
      var (reminderHour, reminderMinute) := ReminderTime(row.value.startHour, row.value.startMinute);
      if employeeId in cronJobs {
        stopped := stopped + [cronJobs[employeeId]];
        cronJobs := cronJobs - {employeeId};
      }
      if !CronAccepts(reminderHour, reminderMinute) {
        return;   // cron.schedule throws: the employee is left without a job
      }
      var job := Job(created, employeeId, reminderHour, reminderMinute, row.value.pushToken);
      created := created + 1;
      cronJobs := cronJobs[employeeId := job];
    }

    /** `POST /setreminder`: upsert the employee's schedule row, then schedule
        the employee's reminder. */
    method SetReminder(employeeId: int, row: ScheduleRow)
      requires Valid()
      modifies this
      ensures Valid()
      ensures schedules == Upsert(old(schedules), employeeId, row)
      ensures State() == Rescheduled(old(State()), schedules, employeeId)
    {
      UpsertUnique(schedules, employeeId, row);
      schedules := Upsert(schedules, employeeId, row);
      ScheduleSingleReminder(employeeId);
    }

    /** `scheduleAllReminders`: schedule every saved employee, row by row. */
    method ScheduleAllReminders()
      requires Valid()
      modifies this
      ensures Valid()
      ensures schedules == old(schedules)
      ensures State() == RescheduledAll(old(State()), schedules, RowIds(schedules))
    {
      var ids := RowIds(schedules);
      for i := 0 to |ids|
        invariant Valid()
        invariant schedules == old(schedules)
        invariant State() == RescheduledAll(old(State()), schedules, ids[..i])
      {
        assert ids[..i + 1][..i] == ids[..i];
        ScheduleSingleReminder(ids[i]);
      }
      assert ids[..|ids|] == ids;
    }
  }
}
