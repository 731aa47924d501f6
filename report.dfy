/**
 The report builder of `send_report_email` (app.py): the reporting window of a
 subscription on a given day and the tasks the report lists. The e-mail body
 and its delivery are not modelled; the report is its list of tasks.
 */
module Report {
  import opened Domain

  /** Days covered by the recognised frequencies: 1, 7 and (not calendar-exact) 30. */
  function PeriodDays(frequency: string): (n: Option<nat>)
    ensures n.Some? <==> frequency in {"daily", "weekly", "monthly"}
    ensures frequency == "daily" ==> n == Some(1)
    ensures frequency == "weekly" ==> n == Some(7)
    ensures frequency == "monthly" ==> n == Some(30)
  {
    if frequency == "daily" then Some(1)
    else if frequency == "weekly" then Some(7)
    else if frequency == "monthly" then Some(30)
    else None
  }

  /** The window start before clamping: `today` less the period, or the
      subscription's own start date for an unrecognised frequency. */
  function RawStart(sub: Subscription, today: Day): (start: Day)
    ensures sub.frequency == "daily" ==> start == today - 1
    ensures sub.frequency == "weekly" ==> start == today - 7
    ensures sub.frequency == "monthly" ==> start == today - 30
    ensures sub.frequency !in {"daily", "weekly", "monthly"} ==> start == sub.startDate
  {
    match PeriodDays(sub.frequency)
    case Some(n) => today - n
    case None => sub.startDate
  }

  /** The window start after clamping: never earlier than the subscription's start date. */
  function RangeStart(sub: Subscription, today: Day): (start: Day)
    ensures start >= sub.startDate && start >= RawStart(sub, today)
    ensures start == sub.startDate || start == RawStart(sub, today)
  {
    var raw := RawStart(sub, today);
    if raw < sub.startDate then sub.startDate else raw
  }

  /** A task belongs in the report of `sub` run on `today`. */
  predicate InReport(t: Task, sub: Subscription, today: Day)
  {
    && t.userId == sub.userId
    && t.dueDate.Some?
    && RangeStart(sub, today) <= t.dueDate.value <= today
  }

  /** The tasks listed by the report, in table order. */
  function ReportTasks(tasks: seq<Task>, sub: Subscription, today: Day): (r: seq<Task>)
    ensures forall t :: t in r <==> t in tasks && InReport(t, sub, today)
    ensures multiset(r) <= multiset(tasks)
    ensures |r| <= |tasks|
    decreases |tasks|
  {
    if tasks == [] then []
    else
      var rest := ReportTasks(tasks[..|tasks| - 1], sub, today);
      var last := tasks[|tasks| - 1];
      assert tasks == tasks[..|tasks| - 1] + [last];
      if InReport(last, sub, today) then rest + [last] else rest
  }

  /** For a recognised frequency, the window spans at most its period:
      `today - start` is the period, or less once clamped. */
  lemma WindowWithinPeriod(sub: Subscription, today: Day)
    requires PeriodDays(sub.frequency).Some?
    ensures today - RangeStart(sub, today) <= PeriodDays(sub.frequency).value
    ensures RangeStart(sub, today) > RawStart(sub, today) ==> RangeStart(sub, today) == sub.startDate
  {
  }

  /** Once the subscription has been running a full period, the window is not clamped. */
  lemma FullPeriodWindow(sub: Subscription, today: Day)
    requires PeriodDays(sub.frequency).Some?
    requires today - PeriodDays(sub.frequency).value >= sub.startDate
    ensures RangeStart(sub, today) == today - PeriodDays(sub.frequency).value
  {
  }

  /** A subscription that starts after `today` reports nothing: the window is empty. */
  lemma {:induction false} NoReportBeforeStart(tasks: seq<Task>, sub: Subscription, today: Day)
    requires sub.startDate > today
    ensures ReportTasks(tasks, sub, today) == []
  {
    if tasks != [] {
      NoReportBeforeStart(tasks[..|tasks| - 1], sub, today);
    }
  }

  /** Tasks of other users never change a report. */
  lemma {:induction false} OtherUsersIgnored(tasks: seq<Task>, t: Task, sub: Subscription, today: Day)
    requires t.userId != sub.userId
    ensures ReportTasks(tasks + [t], sub, today) == ReportTasks(tasks, sub, today)
  {
    assert (tasks + [t])[..|tasks + [t]| - 1] == tasks;
  }

  /** Two daily windows: a subscription starting on day `d`
      run on day `d + 161` covers `[d + 160, d + 161]`; run on day `d` it covers `[d, d]`. */
  lemma DailyWindowExamples(sub: Subscription)
    requires sub.frequency == "daily"
    ensures RangeStart(sub, sub.startDate + 161) == sub.startDate + 160
    ensures RangeStart(sub, sub.startDate) == sub.startDate
  {
  }
}
