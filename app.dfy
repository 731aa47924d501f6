/**
 The state that the handlers of app.py change: the `tasks` and `subscriptions`
 tables (rows in table order, with the next auto-increment id of each), the
 process-wide undo cache `last_deleted_task`, and the scheduler's job store.
 Each handler is a method; the caller's user id is a parameter (the identity
 the bearer token resolves to) and parsed request arguments are `Arg` values.
 A handler that rejects its request changes nothing; one that succeeds commits
 its writes. `subscribe` commits the new row and then reconciles the job store,
 which is taken as unable to fail.
 */
module App {
  import opened Domain
  import opened TaskQueries
  import opened Subscriptions
  import opened Scheduler

  class TaskService {
    var tasks: seq<Task>
    var nextTaskId: nat
    var subscriptions: seq<Subscription>
    var nextSubscriptionId: nat
    var lastDeleted: map<UserId, Task>
    var jobs: map<nat, Job>

    /** Ids are unique auto-increment keys; each user has at most one subscription,
        and every stored one passed the checks of `subscribe`; a cached task
        belongs to the user it is cached for and carries an id already handed out. */
    ghost predicate ValidTables()
      reads this
    {
      && TaskIdsIncreasing(tasks)
      && (forall i :: 0 <= i < |tasks| ==> tasks[i].id < nextTaskId)
      && SubscriptionIdsIncreasing(subscriptions)
      && (forall i :: 0 <= i < |subscriptions| ==> subscriptions[i].id < nextSubscriptionId)
      && AtMostOnePerUser(subscriptions)
      && (forall i :: 0 <= i < |subscriptions| ==>
            KnownFrequency(subscriptions[i].frequency) && WholeHour(subscriptions[i].reportTime))
      && (forall u :: u in lastDeleted ==> lastDeleted[u].userId == u && lastDeleted[u].id < nextTaskId)
    }

    /** The tables are consistent and every subscription has its own job in the store. */
    ghost predicate Valid()
      reads this
    {
      ValidTables() && Covers(jobs, subscriptions)
    }

    constructor ()
      ensures Valid()
      ensures tasks == [] && subscriptions == [] && lastDeleted == map[] && jobs == map[]
    {
      tasks, nextTaskId := [], 1;
      subscriptions, nextSubscriptionId := [], 1;
      lastDeleted, jobs := map[], map[];
    }

    /** `create_task`: title, start_date, due_date and status are required; a
        missing description is stored as the empty string. */
    method CreateTask(user: UserId, title: Option<string>, description: Option<string>,
                      startDate: Option<Day>, dueDate: Option<Day>, completionDate: Option<Day>,
                      status: Option<string>)
      returns (reply: Reply, created: Option<Task>)
      requires Valid()
      modifies this
      ensures Valid()
      ensures reply == Created <==> title.Some? && startDate.Some? && dueDate.Some? && status.Some?
      ensures reply != Created ==> reply == MissingFields && created.None? && unchanged(this)
      ensures reply == Created ==>
        && created == Some(Task(old(nextTaskId), title.value,
                                Some(if description.Some? then description.value else ""),
                                startDate, dueDate, completionDate, status.value, user))
        && created.value.id !in IdsOf(old(tasks))
        && tasks == old(tasks) + [created.value] && nextTaskId == old(nextTaskId) + 1
        && subscriptions == old(subscriptions) && nextSubscriptionId == old(nextSubscriptionId)
        && lastDeleted == old(lastDeleted) && jobs == old(jobs)
    {
      if title.None? || startDate.None? || dueDate.None? || status.None? {
        return MissingFields, None;
      }
      var t := Task(nextTaskId, title.value, Some(if description.Some? then description.value else ""),
                    startDate, dueDate, completionDate, status.value, user);
      tasks := tasks + [t];
      nextTaskId := nextTaskId + 1;
      reply, created := Created, Some(t);
    }

    /** `update_task`: only the caller's task with that id; only its title and description. */
    method UpdateTask(user: UserId, id: nat, title: Field<string>, description: Field<Option<string>>)
      returns (reply: Reply)
      requires Valid()
      modifies this
      ensures Valid()
      ensures reply == Done <==> FindOwned(old(tasks), id, user).Some?
      ensures reply != Done ==> reply == NotFound && unchanged(this)
      ensures reply == Done ==>
        var i := FindOwned(old(tasks), id, user).value;
        && tasks == old(tasks)[i := Edited(old(tasks)[i], title, description)]
        && nextTaskId == old(nextTaskId)
        && subscriptions == old(subscriptions) && nextSubscriptionId == old(nextSubscriptionId)
        && lastDeleted == old(lastDeleted) && jobs == old(jobs)
    {
      var found := FindOwned(tasks, id, user);
      if found.None? {
        return NotFound;
      }
      var i := found.value;
      tasks := tasks[i := Edited(tasks[i], title, description)];
      reply := Done;
    }

    /** `delete_task`: removes the caller's task with that id and no other row. */
    method DeleteTask(user: UserId, id: nat) returns (reply: Reply)
      requires Valid()
      modifies this
      ensures Valid()
      ensures reply == Done <==> FindOwned(old(tasks), id, user).Some?
      ensures reply != Done ==> reply == NotFound && unchanged(this)
      ensures reply == Done ==>
        var i := FindOwned(old(tasks), id, user).value;
        && tasks == old(tasks)[..i] + old(tasks)[i + 1..]
        && (forall t :: t in tasks <==> t in old(tasks) && t.id != id)
        && nextTaskId == old(nextTaskId)
        && subscriptions == old(subscriptions) && nextSubscriptionId == old(nextSubscriptionId)
        && lastDeleted == old(lastDeleted) && jobs == old(jobs)
    {
      var found := FindOwned(tasks, id, user);
      if found.None? {
        return NotFound;
      }
      var i := found.value;
      RemoveRow(tasks, i);
      tasks := tasks[..i] + tasks[i + 1..];
      reply := Done;
    }

    /** `batch_delete_tasks`: both dates must be given and parse, and at least
        one of the caller's tasks must lie in the range; otherwise nothing changes. */
    method BatchDelete(user: UserId, startDate: Arg<Day>, endDate: Arg<Day>) returns (reply: Reply, deleted: nat)
      requires Valid()
      modifies this
      ensures Valid()
      ensures startDate.Missing? || endDate.Missing? ==> reply == MissingFields
      ensures !(startDate.Missing? || endDate.Missing?) && (startDate.Malformed? || endDate.Malformed?) ==> reply == InvalidDate
      ensures reply != Done ==> deleted == 0 && unchanged(this)
      ensures startDate.Given? && endDate.Given? ==>
        var matched := BatchMatches(old(tasks), user, startDate.value, endDate.value);
        && (matched == [] ==> reply == NotFound)
        && (matched != [] ==>
              && reply == Done && deleted == |matched|
              && tasks == BatchRest(old(tasks), user, startDate.value, endDate.value)
              && lastDeleted == old(lastDeleted)[user := matched[|matched| - 1]]
              && nextTaskId == old(nextTaskId) && subscriptions == old(subscriptions)
              && nextSubscriptionId == old(nextSubscriptionId) && jobs == old(jobs))
    {
      var range := CheckRange(startDate, endDate);
      if range.BadRange? {
        return range.reply, 0;
      }
      var matched := BatchMatches(tasks, user, range.start, range.end);
      if matched == [] {
        return NotFound, 0;
      }
      deleted := DeleteMatched(user, range.start, range.end);
      reply := Done;
    }

    /** The writes of a batch delete that selected some rows: the last selected
        row replaces the caller's undo entry, then the selected rows are deleted. */
    method DeleteMatched(user: UserId, s: Day, e: Day) returns (deleted: nat)
      requires Valid() && BatchMatches(tasks, user, s, e) != []
      modifies this
      ensures Valid()
      ensures var matched := BatchMatches(old(tasks), user, s, e);
        && deleted == |matched|
        && tasks == BatchRest(old(tasks), user, s, e)
        && lastDeleted == old(lastDeleted)[user := matched[|matched| - 1]]
        && nextTaskId == old(nextTaskId) && subscriptions == old(subscriptions)
        && nextSubscriptionId == old(nextSubscriptionId) && jobs == old(jobs)
    {
      var matched := BatchMatches(tasks, user, s, e);
      BatchKeepsTableInvariant(tasks, nextTaskId, user, s, e);
      lastDeleted := lastDeleted[user := matched[|matched| - 1]];
      var staged := StageDeletes(tasks, matched);
      DeletingMatchesLeavesRest(tasks, user, s, e);
      tasks := staged;
      deleted := |matched|;
    }

    /** `undo_last_delete`: re-inserts the caller's cached task as a new row with
        a fresh id and drops the cache entry. */
    method UndoLastDelete(user: UserId) returns (reply: Reply, restored: Option<Task>)
      requires Valid()
      modifies this
      ensures Valid()
      ensures reply == Done <==> user in old(lastDeleted)
      ensures reply != Done ==> reply == NotFound && restored.None? && unchanged(this)
      ensures reply == Done ==>
        var cached := old(lastDeleted)[user];
        && restored == Some(cached.(id := old(nextTaskId), userId := user))
        && restored.value.id !in IdsOf(old(tasks)) && restored.value.id != cached.id
        && tasks == old(tasks) + [restored.value]
        && lastDeleted == old(lastDeleted) - {user}
        && nextTaskId == old(nextTaskId) + 1
        && subscriptions == old(subscriptions) && nextSubscriptionId == old(nextSubscriptionId) && jobs == old(jobs)
    {
      if user !in lastDeleted {
        return NotFound, None;
      }
      var cached := lastDeleted[user];
      var t := Task(nextTaskId, cached.title, cached.description, cached.startDate, cached.dueDate,
                    cached.completionDate, cached.status, user);
      tasks := tasks + [t];
      nextTaskId := nextTaskId + 1;
      lastDeleted := lastDeleted - {user};
      reply, restored := Done, Some(t);
    }

    /** `schedule_reports`: installs or replaces the job of every subscription, in table order. */
    method ScheduleReports()
      requires ValidTables()
      modifies this
      ensures Valid()
      ensures jobs == Install(old(jobs), subscriptions)
      ensures Covers(jobs, subscriptions)
      ensures tasks == old(tasks) && nextTaskId == old(nextTaskId) && lastDeleted == old(lastDeleted)
      ensures subscriptions == old(subscriptions) && nextSubscriptionId == old(nextSubscriptionId)
    {
      var i := 0;
      while i < |subscriptions|
        invariant 0 <= i <= |subscriptions|
        invariant jobs == Install(old(jobs), subscriptions[..i])
        invariant tasks == old(tasks) && nextTaskId == old(nextTaskId) && lastDeleted == old(lastDeleted)
        invariant subscriptions == old(subscriptions) && nextSubscriptionId == old(nextSubscriptionId)
      {
        var s := subscriptions[i];
        assert subscriptions[..i + 1][..i] == subscriptions[..i];
        jobs := jobs[s.id := JobFor(s)];
        i := i + 1;
      }
      assert subscriptions[..i] == subscriptions;
      InstallCovers(old(jobs), subscriptions);
    }

    /** `subscribe`: the field checks, then at most one subscription per user;
        on success the new row is stored and the scheduler reconciled. */
    method Subscribe(user: UserId, startDate: Arg<Day>, frequency: string, reportTime: Arg<TimeOfDay>)
      returns (reply: Reply)
      requires Valid()
      modifies this
      ensures Valid()
      ensures CheckRequest(startDate, frequency, reportTime).Rejected? ==>
                reply == CheckRequest(startDate, frequency, reportTime).reply
      ensures CheckRequest(startDate, frequency, reportTime).Accepted? && SubscriptionOf(old(subscriptions), user).Some? ==>
                reply == AlreadySubscribed
      ensures reply != Created ==> StatusCode(reply) == 400 && unchanged(this)
      ensures reply == Created <==>
                CheckRequest(startDate, frequency, reportTime).Accepted? && SubscriptionOf(old(subscriptions), user).None?
      ensures reply == Created ==>
        && subscriptions == old(subscriptions) + [Subscription(old(nextSubscriptionId), user, startDate.value, frequency, reportTime.value)]
        && jobs == Install(old(jobs), subscriptions)
        && Covers(jobs, subscriptions)
        && (NoStaleJobs(old(jobs), old(subscriptions)) ==> NoStaleJobs(jobs, subscriptions))
        && nextSubscriptionId == old(nextSubscriptionId) + 1
        && tasks == old(tasks) && nextTaskId == old(nextTaskId) && lastDeleted == old(lastDeleted)
    {
      var checked := CheckRequest(startDate, frequency, reportTime);
      if checked.Rejected? {
        return checked.reply;
      }
      if SubscriptionOf(subscriptions, user).Some? {
        return AlreadySubscribed;
      }
      StoreSubscription(user, checked.request);
      ScheduleReports();
      reply := Created;
    }

    /** The insert and commit of `subscribe`: one new row under the next id. */
    method StoreSubscription(user: UserId, request: Request)
      requires ValidTables() && SubscriptionOf(subscriptions, user).None?
      requires KnownFrequency(request.frequency) && WholeHour(request.reportTime)
      modifies this
      ensures ValidTables()
      ensures subscriptions == old(subscriptions) + [Subscription(old(nextSubscriptionId), user, request.startDate, request.frequency, request.reportTime)]
      ensures SubscriptionIds(subscriptions) == SubscriptionIds(old(subscriptions)) + {old(nextSubscriptionId)}
      ensures nextSubscriptionId == old(nextSubscriptionId) + 1
      ensures tasks == old(tasks) && nextTaskId == old(nextTaskId) && lastDeleted == old(lastDeleted) && jobs == old(jobs)
    {
      var s := Subscription(nextSubscriptionId, user, request.startDate, request.frequency, request.reportTime);
      AppendKeepsOnePerUser(subscriptions, s);
      assert SubscriptionIds(subscriptions + [s]) == SubscriptionIds(subscriptions) + {s.id};
      subscriptions := subscriptions + [s];
      nextSubscriptionId := nextSubscriptionId + 1;
    }

    /** `unsubscribe`: deletes the caller's subscription; the scheduler is not
        told, so the job installed for it stays in the job store. */
    method Unsubscribe(user: UserId) returns (reply: Reply)
      requires Valid()
      modifies this
      ensures Valid()
      ensures reply == Done <==> SubscriptionOf(old(subscriptions), user).Some?
      ensures reply != Done ==> reply == NotFound && unchanged(this)
      ensures reply == Done ==>
        var i := SubscriptionOf(old(subscriptions), user).value;
        && subscriptions == RemoveAt(old(subscriptions), i)
        && SubscriptionOf(subscriptions, user).None?
        && jobs == old(jobs)
        && !NoStaleJobs(jobs, subscriptions)
        && tasks == old(tasks) && nextTaskId == old(nextTaskId) && lastDeleted == old(lastDeleted)
        && nextSubscriptionId == old(nextSubscriptionId)
    {
      var found := SubscriptionOf(subscriptions, user);
      if found.None? {
        return NotFound;
      }
      RemoveAtKeeps(subscriptions, found.value);
      RemoveOwnLeavesNone(subscriptions, user);
      UnsubscribeLeavesStaleJob(jobs, subscriptions, found.value);
      RemoveAtCovers(jobs, subscriptions, found.value);
      subscriptions := RemoveAt(subscriptions, found.value);
      reply := Done;
    }
  }

  /** Batch delete, then undo twice: the first undo re-inserts the last selected
      task under a new id, the second finds no cache entry. */
  method DeleteThenUndoTwice(app: TaskService, user: UserId, s: Day, e: Day)
    returns (first: Reply, second: Reply, restored: Option<Task>)
    requires app.Valid()
    modifies app
    ensures app.Valid()
    ensures var m := BatchMatches(old(app.tasks), user, s, e);
      m != [] ==>
        && restored.Some? && restored.value == m[|m| - 1].(id := restored.value.id)
        && restored.value.id !in IdsOf(old(app.tasks))
        && first == Done && second == NotFound
        && app.tasks == BatchRest(old(app.tasks), user, s, e) + [restored.value]
  {
    var deleted;
    var r;
    r, deleted := app.BatchDelete(user, Given(s), Given(e));
    first, restored := app.UndoLastDelete(user);
    var again;
    second, again := app.UndoLastDelete(user);
  }

  /** A batch delete by one user whose range arguments both parse, as seen by
      the undo cache and the task table. */
  method DeleteInRange(app: TaskService, user: UserId, s: Day, e: Day)
    requires app.Valid()
    modifies app
    ensures app.Valid()
    ensures var m := BatchMatches(old(app.tasks), user, s, e);
      m == [] ==> app.lastDeleted == old(app.lastDeleted) && app.tasks == old(app.tasks)
    ensures var m := BatchMatches(old(app.tasks), user, s, e);
      m != [] ==>
        && app.lastDeleted == old(app.lastDeleted)[user := m[|m| - 1]]
        && m[|m| - 1].userId == user
        && app.tasks == BatchRest(old(app.tasks), user, s, e)
  {
    BatchMatchesMembers(app.tasks, user, s, e);
    ghost var m := BatchMatches(app.tasks, user, s, e);
    if m != [] { assert m[|m| - 1] in m; }
    var r, n := app.BatchDelete(user, Given(s), Given(e));
  }

  /** Two users batch-delete in turn: each user's undo entry is the last task
      of that user's own selection. */
  method TwoUsersDelete(app: TaskService, u1: UserId, s1: Day, e1: Day, u2: UserId, s2: Day, e2: Day)
    requires app.Valid() && u1 != u2
    modifies app
    ensures app.Valid()
    ensures var m1 := BatchMatches(old(app.tasks), u1, s1, e1);
      m1 != [] ==> u1 in app.lastDeleted && app.lastDeleted[u1] == m1[|m1| - 1] && m1[|m1| - 1].userId == u1
    ensures var m2 := BatchMatches(old(app.tasks), u2, s2, e2);
      m2 != [] ==> u2 in app.lastDeleted && app.lastDeleted[u2] == m2[|m2| - 1] && m2[|m2| - 1].userId == u2
  {
    ghost var t0 := app.tasks;
    ghost var m1 := BatchMatches(t0, u1, s1, e1);
    ghost var m2 := BatchMatches(t0, u2, s2, e2);
    OtherUserSelectionUnchanged(t0, u1, s1, e1, u2, s2, e2);
    DeleteInRange(app, u1, s1, e1);
    assert BatchMatches(app.tasks, u2, s2, e2) == m2;
    ghost var c1 := app.lastDeleted;
    assert m1 != [] ==> u1 in c1 && c1[u1] == m1[|m1| - 1];
    DeleteInRange(app, u2, s2, e2);
  }

  /** Two users batch-delete in turn, then each undoes: each gets back the last
      task of their own selection, never the other user's. */
  method TwoUsersUndo(app: TaskService, u1: UserId, s1: Day, e1: Day, u2: UserId, s2: Day, e2: Day)
    returns (restored1: Option<Task>, restored2: Option<Task>)
    requires app.Valid() && u1 != u2
    modifies app
    ensures app.Valid()
    ensures var m1 := BatchMatches(old(app.tasks), u1, s1, e1);
      m1 != [] ==> restored1.Some? && restored1.value == m1[|m1| - 1].(id := restored1.value.id)
    ensures var m2 := BatchMatches(old(app.tasks), u2, s2, e2);
      m2 != [] ==> restored2.Some? && restored2.value == m2[|m2| - 1].(id := restored2.value.id)
  {
    TwoUsersDelete(app, u1, s1, e1, u2, s2, e2);
    var u;
    u, restored1 := app.UndoLastDelete(u1);
    u, restored2 := app.UndoLastDelete(u2);
  }

  /** The loop of `batch_delete_tasks`: the session stages the delete of each
      selected row, one at a time; the table it leaves is the table without
      their ids. */
  method StageDeletes(table: seq<Task>, selected: seq<Task>) returns (staged: seq<Task>)
    ensures staged == WithoutIds(table, IdsOf(selected))
  {
    staged := table;
    var i := 0;
    WithoutAbsentIds(table, {});
    assert IdsOf(selected[..0]) == {};
    while i < |selected|
      invariant 0 <= i <= |selected|
      invariant staged == WithoutIds(table, IdsOf(selected[..i]))
    {
      WithoutIdsTwice(table, IdsOf(selected[..i]), {selected[i].id});
      assert IdsOf(selected[..i + 1]) == IdsOf(selected[..i]) + {selected[i].id} by {
        assert selected[..i + 1] == selected[..i] + [selected[i]];
      }
      staged := WithoutIds(staged, {selected[i].id});
      i := i + 1;
    }
    assert selected[..i] == selected;
  }

  /** The rows a batch delete leaves keep increasing ids below the next id, and
      the row it caches for undo is one of the caller's rows below the next id. */
  lemma BatchKeepsTableInvariant(tasks: seq<Task>, next: nat, user: UserId, s: Day, e: Day)
    requires TaskIdsIncreasing(tasks) && forall i :: 0 <= i < |tasks| ==> tasks[i].id < next
    requires BatchMatches(tasks, user, s, e) != []
    ensures TaskIdsIncreasing(BatchRest(tasks, user, s, e))
    ensures forall i :: 0 <= i < |BatchRest(tasks, user, s, e)| ==> BatchRest(tasks, user, s, e)[i].id < next
    ensures var m := BatchMatches(tasks, user, s, e); m[|m| - 1].userId == user && m[|m| - 1].id < next
  {
    var m := BatchMatches(tasks, user, s, e);
    var rest := BatchRest(tasks, user, s, e);
    BatchMatchesMembers(tasks, user, s, e);
    BatchRestMembers(tasks, user, s, e);
    assert m[|m| - 1] in tasks;
    forall k | 0 <= k < |rest| ensures rest[k].id < next {
      assert rest[k] in tasks;
    }
    DeletingMatchesLeavesRest(tasks, user, s, e);
    WithoutIdsIncreasing(tasks, IdsOf(m));
  }

  /** A job store that covers a table still covers it with a row removed. */
  lemma RemoveAtCovers(jobs: map<nat, Job>, subs: seq<Subscription>, i: nat)
    requires i < |subs| && Covers(jobs, subs)
    ensures Covers(jobs, RemoveAt(subs, i))
  {
  }

  /** A covering job store keeps the job of a removed subscription: the removed
      id is still a key, it is no longer a subscription's id, and when that job
      fires it still reports on the removed subscription. */
  lemma UnsubscribeLeavesStaleJob(jobs: map<nat, Job>, subs: seq<Subscription>, i: nat)
    requires i < |subs| && SubscriptionIdsIncreasing(subs) && AtMostOnePerUser(subs)
    requires Covers(jobs, subs)
    ensures subs[i].id in jobs && subs[i].id !in SubscriptionIds(RemoveAt(subs, i))
    ensures jobs[subs[i].id].subscription == subs[i]
    ensures !NoStaleJobs(jobs, RemoveAt(subs, i))
  {
    RemoveAtKeeps(subs, i);
  }
}
