# Task manager core in Dafny

This project models the core of a Flask task-management service (`app.py`).
Users own tasks with optional start, due and completion dates. They can also
subscribe to a periodic e-mail report of their tasks. The model covers:

- the listing filter of `get_tasks` and the owner-scoped `update_task` and
  `delete_task`;
- `batch_delete_tasks`, which deletes the caller's tasks in a date range and
  remembers the last one in the process-wide `last_deleted_task` dictionary;
- `undo_last_delete`, which re-inserts that remembered task as a new row;
- `subscribe` and `unsubscribe`, with their field checks and the
  one-subscription-per-user rule;
- `schedule_reports`, which installs or replaces one cron job per subscription
  in the scheduler's job store;
- the reporting window and task selection of `send_report_email`.

Modules:

- `Domain` (domain.dfy): the records, the parse outcome `Arg` (missing,
  malformed or given), the handler replies and their HTTP status codes.
- `Report` (report.dfy): the reporting window and the tasks a report lists.
- `TaskQueries` (queries.dfy): the queries over the task table, as functions
  on a sequence of rows in table order.
- `Subscriptions` (subscriptions.dfy): the request checks of `subscribe` and
  the queries over the subscription table.
- `Scheduler` (scheduler.dfy): the job store as a map from subscription id to
  job, and what `schedule_reports` makes of it.
- `App` (app.dfy): the class `TaskService` holds the state the handlers
  change. Its fields are both tables with their next auto-increment ids, the
  undo cache and the job store. Each handler is a method whose contract states
  the whole new state. `Valid()` is the invariant every handler keeps:
  - ids are unique and increasing;
  - there is at most one subscription per user;
  - every stored subscription passed the checks of `subscribe`;
  - a cached task belongs to the user it is cached for;
  - every subscription has its own job in the job store.

Dates are day numbers. The caller's user id is a parameter. A handler that
rejects its request changes nothing; one that succeeds commits all its writes.
`subscribe` commits the new row and then reconciles the job store; the model
takes that reconciliation as unable to fail.

## Model

| member | source | states |
|---|---|---|
| Domain.StatusCode | app.py:77-97 | Done is 200, Created is 201 (app.py:199 and 331), NotFound is 404; every validation failure is 400, AlreadySubscribed included (app.py:316) |
| Report.PeriodDays | app.py:365-370 | the period is defined exactly for daily, weekly and monthly: 1, 7 and 30 days respectively |
| Report.RawStart | app.py:364-374 | the unclamped window start is today−1, today−7 or today−30; any other frequency falls back to the subscription's start date |
| Report.RangeStart | app.py:376-378 | the clamped start is never before the subscription's start date nor before the raw start, and is one of the two |
| Report.ReportTasks | app.py:380-385 | a task is reported iff it is the subscriber's, has a due date, and that due date lies in [start, today]; no row is listed more often than the table holds it; an empty report is allowed |
| Report.WindowWithinPeriod | app.py:365-378 | for a known frequency, today − start is at most the period (the inclusive window holds at most period + 1 dates); when clamping moves the start, the start is the subscription's start date |
| Report.FullPeriodWindow | app.py:365-378 | once a full period has passed since the start date, the window start is exactly today minus the period |
| Report.NoReportBeforeStart | app.py:376-385 | a subscription that starts after today reports no task |
| Report.OtherUsersIgnored | app.py:381-385 | adding another user's task to the table leaves the report unchanged |
| Report.DailyWindowExamples | app.py:365-378 | a daily subscription run 161 days after its start covers its last two dates, [start+160, start+161]; run on its start day it covers that day only |
| Scheduler.JobFor | app.py:427-435 | the job for a subscription fires at its report hour and minute and reports on that subscription |
| Scheduler.Install | app.py:421-436 | the job store's keys after reconciling are the old keys plus every subscription's id |
| Scheduler.InstallCovers | app.py:425-435 | after reconciling, every subscription has under its own id exactly the job built from it |
| Scheduler.InstallKeepsOthers | app.py:427-435 | a job whose id is not a current subscription's is left untouched |
| Scheduler.InstallExact | app.py:421-436 | from a store with no stale jobs, the keys after reconciling are exactly the subscriptions' ids, each holding its own job |
| Scheduler.InstallIdempotent | app.py:425-435 | reconciling twice gives the same job store as reconciling once |
| Scheduler.Fire | app.py:427-430 | a firing job reports exactly the report tasks of the subscription it was installed with, none more often than the table holds it |
| Subscriptions.CheckRequest | app.py:290-311 | a request is accepted iff all fields are present, the frequency is known and the time is on the hour; each failure gets its own 400 reply, checked in the handler's order |
| Subscriptions.SubscriptionOf | app.py:314-316 | finds the position of one of the user's subscriptions; none iff the user has no subscription |
| Subscriptions.RemoveAt | app.py:345-346 | removing a row shifts the later rows down by one and keeps the earlier ones |
| Subscriptions.AppendKeepsOnePerUser | app.py:313-326 | adding a subscription for a user who has none keeps at most one subscription per user |
| Subscriptions.RemoveAtKeeps | app.py:345-346 | removing a row keeps ids increasing and one subscription per user, and its id is no longer in the table |
| Subscriptions.RemoveOwnLeavesNone | app.py:340-346 | after unsubscribing, the user has no subscription left |
| TaskQueries.GetTasks | app.py:214-224 | lists exactly the caller's tasks, filtered by status when one is given and by the date range when both dates are given; no row is listed more often than the table holds it |
| TaskQueries.CheckRange | app.py:77-84 | the range is accepted iff both dates are given and parse; a missing date is reported before a malformed one |
| TaskQueries.BatchMatches | app.py:86 | the rows a batch delete selects, never more than the table holds; which rows they are is stated by BatchMatchesMembers |
| TaskQueries.BatchRest | app.py:86-96 | the rows a batch delete leaves, never more than the table holds; which rows they are is stated by BatchRestMembers |
| TaskQueries.BatchMatchesMembers | app.py:86 | the batch selection is exactly the caller's tasks with start date ≥ s and due date ≤ e |
| TaskQueries.BatchRestMembers | app.py:86-96 | the batch delete leaves exactly the unselected rows, including every other user's rows |
| TaskQueries.BatchPartition | app.py:86-96 | selected and remaining rows together are the table's rows, as a multiset, and their counts add up |
| TaskQueries.LastMatchIsLastSelected | app.py:86-91 | the task cached for undo is a row of the table after which no selected row follows |
| TaskQueries.OtherUserSelectionUnchanged | app.py:86-96 | one user's batch delete does not change what another user's batch delete selects |
| TaskQueries.FindOwned | app.py:254-257 | finds the first row with that id owned by the caller; none iff there is no such row |
| TaskQueries.Edited | app.py:260-261 | an update replaces the title and description when given and keeps every other column |
| TaskQueries.WithoutIds | app.py:93-96 | the table after deleting rows by id, never longer than before; which rows remain is stated by WithoutIdsMembers |
| TaskQueries.WithoutIdsMembers | app.py:93-96 | deleting rows by id keeps exactly the rows whose id is not deleted |
| TaskQueries.WithoutAbsentIds | app.py:93-96 | deleting ids no row carries leaves the table unchanged |
| TaskQueries.WithoutIdsIncreasing | app.py:93-96 | deleting rows keeps ids increasing |
| TaskQueries.WithoutIdsTwice | app.py:93-96 | deleting one set of ids after another is deleting their union |
| TaskQueries.WithoutIdsIsBatchRest | app.py:86-96 | deleting exactly the selected rows' ids leaves exactly the unselected rows |
| TaskQueries.SelectedIds | app.py:86-94 | with unique ids, a row's id is among the selected ids iff the row is selected |
| TaskQueries.DeletingMatchesLeavesRest | app.py:86-96 | deleting the selected rows' ids leaves exactly the unselected rows |
| TaskQueries.RemoveRow | app.py:271-276 | removing a row removes exactly the rows carrying its id and keeps ids increasing |
| App.TaskService.constructor | app.py:65 | the service starts with empty tables, an empty undo cache and an empty job store |
| App.TaskService.CreateTask | app.py:176-199 | missing title, start date, due date or status gives 400 and no change; otherwise exactly one new row with a fresh id, an empty description by default, owned by the caller |
| App.TaskService.UpdateTask | app.py:251-263 | 404 and no change unless the caller owns a task with that id; otherwise only that row changes, and only its title and description |
| App.TaskService.DeleteTask | app.py:268-278 | 404 and no change unless the caller owns a task with that id; otherwise exactly the row with that id is gone |
| App.TaskService.BatchDelete | app.py:67-97 | a missing date gives 400, then a malformed one 400, then an empty selection 404, all with no change; otherwise exactly the selected rows are deleted, their count is returned, and the caller's undo entry becomes the last selected row |
| App.TaskService.DeleteMatched | app.py:91-96 | the caller's undo entry becomes the last selected row and the table becomes the unselected rows |
| App.TaskService.UndoLastDelete | app.py:100-135 | 404 and no change without a cache entry; otherwise one new row with a fresh id copies the cached task's fields for the caller, and the entry is dropped |
| App.TaskService.ScheduleReports | app.py:421-436 | the job store becomes the reconciled store, in which every subscription has its own job; nothing else changes |
| App.TaskService.StoreSubscription | app.py:319-326 | one new row with the request's fields under the next id is appended; the tables stay consistent and nothing else changes |
| App.TaskService.Subscribe | app.py:281-331 | each failed check gives its 400 reply and no change, and so does a second subscription for one user; otherwise one new row with the given fields is added and the jobs are reconciled |
| App.TaskService.Unsubscribe | app.py:336-348 | 404 and no change without a subscription; otherwise the user's row is gone, the job store is untouched and is left with a stale job |
| App.DeleteThenUndoTwice | app.py:86-126 | after a batch delete that selected rows, the first undo restores the last selected task under a fresh id, and the second returns 404 |
| App.DeleteInRange | app.py:86-96 | a batch delete with given dates changes the table and the caller's undo entry only when it selects rows |
| App.TwoUsersDelete | app.py:86-91 | after two users' batch deletes, each user's undo entry is the last task of that user's own selection |
| App.TwoUsersUndo | app.py:107-126 | after two users' batch deletes, each user's undo restores their own last selected task, never the other's |
| App.StageDeletes | app.py:93-96 | deleting the selected rows one at a time leaves the table without their ids |
| App.BatchKeepsTableInvariant | app.py:86-96 | the rows a batch delete leaves keep unique ids, and the cached row is the caller's |
| App.RemoveAtCovers | app.py:345-346 | removing a subscription leaves every remaining subscription with its job |
| App.UnsubscribeLeavesStaleJob | app.py:345-346 | after an unsubscribe, the removed subscription's job is still stored, its id is no subscription's, and it still reports on the removed subscription |

## Left out

- Flask routing, JSON bodies, response messages and the home page: a handler returns a `Reply` and its status code.
- JWT authentication, password hashing, sign-up and sign-in: the caller's user id is a parameter, and the user lookup is assumed to succeed.
- The SQLAlchemy ORM and its sessions. Tables are sequences of rows in table order. An unordered `.all()` or `.first()` is read in that order, and ids are auto-increment counters that never go back. The fresh-id promise of `App.TaskService.UndoLastDelete` (the restored row's id differs from the deleted one's) rests on that; a database that reuses the highest deleted id, such as SQLite without AUTOINCREMENT, could give the restored row its old id.
- Date and time parsing with `strptime`, and calendar arithmetic. Dates are day numbers, and a parse outcome is an `Arg` (missing or empty, malformed, or given). A month is 30 days, as in the source.
- `get_tasks` passes its date arguments to the query without parsing them. The model takes those arguments as already-read day numbers.
- `create_task` stores the body's dates as given, without parsing. The model takes them as day numbers.
- JSON `null` for a title, and `null` values in the body of `create_task`: there a present key always carries a value. (An update may set the description to `null`, modelled as `Set(None)`.)
- The HTML body and the mail delivery of `send_report_email`, and the `/test-email` route: a report is its list of tasks, and `today` is a parameter.
- The APScheduler background thread, cron next-run-time computation, the SQLAlchemy job store and the `/jobs` listing. The job id `subscription_{id}` is represented by the id.
- Concurrent requests on the global undo cache: handlers run one at a time.
- The unreachable second return of `get_tasks` (app.py:231-233).
- Configuration and environment variables.
- Column length limits (`title` is `String(100)`, `status` is `String(20)`, app.py:55 and 60): a database that enforces them would make `create_task` or `update_task` fail on an over-long value, while `App.TaskService.CreateTask` and `App.TaskService.UpdateTask` accept any string. The `logging` calls of `schedule_reports` (app.py:424, 426, 436) are not modelled either.
- `Report.RawStart`'s fallback for an unknown frequency is kept. Every stored subscription has a known frequency, so the fallback is unreachable from `subscribe`.
- The report job's minute is `report_time.minute`, which validation forces to 0. The model keeps the minute field rather than a constant 0.
- App.TaskService.Subscribe: `add_job` is modelled as unable to fail, and the commit of the new row and the job installation as one step. In `subscribe` the row is committed (app.py:325-326) before `schedule_reports()` runs (app.py:329), so a failing `add_job` would leave a stored subscription without a job; the model does not capture that state.
