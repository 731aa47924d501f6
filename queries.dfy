/**
 The queries that app.py runs over the `tasks` table: the listing filter of
 `get_tasks`, the owner-scoped lookup of `get_task`, `update_task` and
 `delete_task`, and the date-range selection of `batch_delete_tasks`.
 A table is a sequence of rows in table order; a query returns the rows it
 selects in that order.
 */
module TaskQueries {
  import opened Domain

  /** `start_date >= s AND due_date <= e`; a NULL date satisfies neither comparison. */
  predicate WithinDates(t: Task, s: Day, e: Day)
  {
    t.startDate.Some? && t.startDate.value >= s && t.dueDate.Some? && t.dueDate.value <= e
  }

  /** The row filter of `get_tasks`: the caller's rows, with the status filter applied
      when a status is given (non-empty) and the date filter when both dates are given. */
  predicate Listed(t: Task, user: UserId, status: string, start: Option<Day>, end: Option<Day>)
  {
    && t.userId == user
    && (status != "" ==> t.status == status)
    && (start.Some? && end.Some? ==> WithinDates(t, start.value, end.value))
  }

  function GetTasks(tasks: seq<Task>, user: UserId, status: string, start: Option<Day>, end: Option<Day>): (r: seq<Task>)
    ensures forall t :: t in r <==> t in tasks && Listed(t, user, status, start, end)
    ensures multiset(r) <= multiset(tasks)
    ensures |r| <= |tasks|
    decreases |tasks|
  {
    if tasks == [] then []
    else
      var rest := GetTasks(tasks[..|tasks| - 1], user, status, start, end);
      var last := tasks[|tasks| - 1];
      assert tasks == tasks[..|tasks| - 1] + [last];
      if Listed(last, user, status, start, end) then rest + [last] else rest
  }

  datatype RangeCheck = Range(start: Day, end: Day) | BadRange(reply: Reply)

  /** The argument checks of `batch_delete_tasks`: both dates present (else
      400 asking for both), then both parse (else 400 on the format). */
  function CheckRange(startDate: Arg<Day>, endDate: Arg<Day>): (c: RangeCheck)
    ensures c.Range? <==> startDate.Given? && endDate.Given?
    ensures c.Range? ==> c.start == startDate.value && c.end == endDate.value
    ensures startDate.Missing? || endDate.Missing? ==> c == BadRange(MissingFields)
    ensures !(startDate.Missing? || endDate.Missing?) && !c.Range? ==> c == BadRange(InvalidDate)
  {
    if startDate.Missing? || endDate.Missing? then BadRange(MissingFields)
    else if startDate.Malformed? || endDate.Malformed? then BadRange(InvalidDate)
    else Range(startDate.value, endDate.value)
  }

  /** The row selection of `batch_delete_tasks`. */
  predicate InBatch(t: Task, user: UserId, s: Day, e: Day)
  {
    t.userId == user && WithinDates(t, s, e)
  }

  /** The rows a batch delete selects, in table order. */
  function BatchMatches(tasks: seq<Task>, user: UserId, s: Day, e: Day): (r: seq<Task>)
    ensures |r| <= |tasks|
    decreases |tasks|
  {
    if tasks == [] then []
    else
      var rest := BatchMatches(tasks[..|tasks| - 1], user, s, e);
      var last := tasks[|tasks| - 1];
      if InBatch(last, user, s, e) then rest + [last] else rest
  }

  /** The rows a batch delete leaves in the table, in table order. */
  function BatchRest(tasks: seq<Task>, user: UserId, s: Day, e: Day): (r: seq<Task>)
    ensures |r| <= |tasks|
    decreases |tasks|
  {
    if tasks == [] then []
    else
      var rest := BatchRest(tasks[..|tasks| - 1], user, s, e);
      var last := tasks[|tasks| - 1];
      if InBatch(last, user, s, e) then rest else rest + [last]
  }

  /** The selection is exactly the caller's rows within the dates. */
  lemma {:induction false} BatchMatchesMembers(tasks: seq<Task>, user: UserId, s: Day, e: Day)
    ensures forall t :: t in BatchMatches(tasks, user, s, e) <==> t in tasks && InBatch(t, user, s, e)
  {
    if tasks != [] {
      BatchMatchesMembers(tasks[..|tasks| - 1], user, s, e);
      assert tasks == tasks[..|tasks| - 1] + [tasks[|tasks| - 1]];
    }
  }

  /** What a batch delete leaves is exactly the rows it does not select: every
      other user's rows and the caller's rows outside the dates. */
  lemma {:induction false} BatchRestMembers(tasks: seq<Task>, user: UserId, s: Day, e: Day)
    ensures forall t :: t in BatchRest(tasks, user, s, e) <==> t in tasks && !InBatch(t, user, s, e)
  {
    if tasks != [] {
      BatchRestMembers(tasks[..|tasks| - 1], user, s, e);
      assert tasks == tasks[..|tasks| - 1] + [tasks[|tasks| - 1]];
    }
  }

  /** Selected and remaining rows split the table: together they are its rows,
      with their multiplicities. */
  lemma {:induction false} BatchPartition(tasks: seq<Task>, user: UserId, s: Day, e: Day)
    ensures multiset(BatchMatches(tasks, user, s, e)) + multiset(BatchRest(tasks, user, s, e)) == multiset(tasks)
    ensures |BatchMatches(tasks, user, s, e)| + |BatchRest(tasks, user, s, e)| == |tasks|
  {
    if tasks != [] {
      var init := tasks[..|tasks| - 1];
      BatchPartition(init, user, s, e);
      assert tasks == init + [tasks[|tasks| - 1]];
    }
  }

  /** The row kept for undo is the last selected row in table order: no row after it is selected. */
  lemma {:induction false} LastMatchIsLastSelected(tasks: seq<Task>, user: UserId, s: Day, e: Day)
    requires BatchMatches(tasks, user, s, e) != []
    ensures var m := BatchMatches(tasks, user, s, e);
      exists i :: 0 <= i < |tasks| && tasks[i] == m[|m| - 1] && forall j :: i < j < |tasks| ==> !InBatch(tasks[j], user, s, e)
  {
    var init := tasks[..|tasks| - 1];
    var last := tasks[|tasks| - 1];
    var m := BatchMatches(tasks, user, s, e);
    if InBatch(last, user, s, e) {
      assert m[|m| - 1] == last;
      assert tasks[|tasks| - 1] == m[|m| - 1];
    } else {
      assert m == BatchMatches(init, user, s, e);
      LastMatchIsLastSelected(init, user, s, e);
      var i :| 0 <= i < |init| && init[i] == m[|m| - 1] && forall j :: i < j < |init| ==> !InBatch(init[j], user, s, e);
      assert tasks[i] == m[|m| - 1];
      assert forall j :: i < j < |tasks| ==> !InBatch(tasks[j], user, s, e) by {
        assert forall j :: i < j < |init| ==> tasks[j] == init[j];
      }
    }
  }

  /** A batch delete by one user does not change what another user's batch
      delete selects. */
  lemma {:induction false} OtherUserSelectionUnchanged(tasks: seq<Task>, u1: UserId, s1: Day, e1: Day, u2: UserId, s2: Day, e2: Day)
    requires u1 != u2
    ensures BatchMatches(BatchRest(tasks, u1, s1, e1), u2, s2, e2) == BatchMatches(tasks, u2, s2, e2)
  {
    if tasks != [] {
      var init := tasks[..|tasks| - 1];
      var last := tasks[|tasks| - 1];
      OtherUserSelectionUnchanged(init, u1, s1, e1, u2, s2, e2);
      var rest := BatchRest(init, u1, s1, e1);
      if !InBatch(last, u1, s1, e1) {
        assert (rest + [last])[..|rest + [last]| - 1] == rest;
      }
    }
  }

  /** `Task.query.filter_by(id=task_id, user_id=user.id).first()`: the position
      of the first row with that id owned by the caller. */
  function FindOwned(tasks: seq<Task>, id: nat, user: UserId): (r: Option<nat>)
    ensures r.Some? ==> r.value < |tasks| && tasks[r.value].id == id && tasks[r.value].userId == user
    ensures r.Some? ==> forall j :: 0 <= j < r.value ==> !(tasks[j].id == id && tasks[j].userId == user)
    ensures r.None? <==> forall t :: t in tasks ==> !(t.id == id && t.userId == user)
    decreases |tasks|
  {
    if tasks == [] then None
    else if tasks[0].id == id && tasks[0].userId == user then Some(0)
    else
      match FindOwned(tasks[1..], id, user)
      case None =>
        assert tasks == [tasks[0]] + tasks[1..];
        None
      case Some(k) => Some(k + 1)
  }

  /** The row after `update_task`: the title and the description are replaced
      when given; every other column keeps its value. */
  function Edited(t: Task, title: Field<string>, description: Field<Option<string>>): (u: Task)
    ensures u.title == (if title.Set? then title.value else t.title)
    ensures u.description == (if description.Set? then description.value else t.description)
    ensures u.id == t.id && u.userId == t.userId && u.status == t.status
    ensures u.startDate == t.startDate && u.dueDate == t.dueDate && u.completionDate == t.completionDate
  {
    var t1 := if title.Set? then t.(title := title.value) else t;
    if description.Set? then t1.(description := description.value) else t1
  }

  function IdsOf(tasks: seq<Task>): set<nat>
  {
    set t | t in tasks :: t.id
  }

  /** The table after deleting every row whose id is in `ids`. */
  function WithoutIds(tasks: seq<Task>, ids: set<nat>): (r: seq<Task>)
    ensures |r| <= |tasks|
    decreases |tasks|
  {
    if tasks == [] then []
    else
      var rest := WithoutIds(tasks[..|tasks| - 1], ids);
      var last := tasks[|tasks| - 1];
      if last.id in ids then rest else rest + [last]
  }

  /** Deleting by id keeps exactly the rows whose id is not deleted. */
  lemma {:induction false} WithoutIdsMembers(tasks: seq<Task>, ids: set<nat>)
    ensures forall t :: t in WithoutIds(tasks, ids) <==> t in tasks && t.id !in ids
  {
    if tasks != [] {
      WithoutIdsMembers(tasks[..|tasks| - 1], ids);
      assert tasks == tasks[..|tasks| - 1] + [tasks[|tasks| - 1]];
    }
  }

  /** Deleting ids that no row carries leaves the table as it is. */
  lemma {:induction false} WithoutAbsentIds(tasks: seq<Task>, ids: set<nat>)
    requires forall i :: 0 <= i < |tasks| ==> tasks[i].id !in ids
    ensures WithoutIds(tasks, ids) == tasks
  {
    if tasks != [] {
      var init := tasks[..|tasks| - 1];
      WithoutAbsentIds(init, ids);
      assert tasks == init + [tasks[|tasks| - 1]];
    }
  }

  /** Deleting rows keeps ids increasing. */
  lemma {:induction false} WithoutIdsIncreasing(tasks: seq<Task>, ids: set<nat>)
    requires TaskIdsIncreasing(tasks)
    ensures TaskIdsIncreasing(WithoutIds(tasks, ids))
  {
    if tasks != [] {
      var init := tasks[..|tasks| - 1];
      WithoutIdsIncreasing(init, ids);
      WithoutIdsMembers(init, ids);
      var rest := WithoutIds(init, ids);
      var last := tasks[|tasks| - 1];
      forall k | 0 <= k < |rest| ensures rest[k].id < last.id {
        assert rest[k] in init;
        var i :| 0 <= i < |init| && init[i] == rest[k];
        assert tasks[i] == rest[k];
      }
    }
  }

  /** Deleting one set of ids after another deletes their union. */
  lemma {:induction false} WithoutIdsTwice(tasks: seq<Task>, a: set<nat>, b: set<nat>)
    ensures WithoutIds(WithoutIds(tasks, a), b) == WithoutIds(tasks, a + b)
  {
    if tasks != [] {
      var init := tasks[..|tasks| - 1];
      WithoutIdsTwice(init, a, b);
      var last := tasks[|tasks| - 1];
      if last.id !in a {
        var w := WithoutIds(init, a);
        assert (w + [last])[..|w + [last]| - 1] == w;
      }
    }
  }

  /** Deleting the ids of exactly the selected rows leaves exactly the unselected rows. */
  lemma {:induction false} WithoutIdsIsBatchRest(tasks: seq<Task>, ids: set<nat>, user: UserId, s: Day, e: Day)
    requires forall i :: 0 <= i < |tasks| ==> (tasks[i].id in ids <==> InBatch(tasks[i], user, s, e))
    ensures WithoutIds(tasks, ids) == BatchRest(tasks, user, s, e)
  {
    if tasks != [] {
      WithoutIdsIsBatchRest(tasks[..|tasks| - 1], ids, user, s, e);
    }
  }

  /** With unique ids, a row's id is among the selected ids exactly when the row is selected. */
  lemma SelectedIds(tasks: seq<Task>, user: UserId, s: Day, e: Day)
    requires TaskIdsIncreasing(tasks)
    ensures forall i :: 0 <= i < |tasks| ==> (tasks[i].id in IdsOf(BatchMatches(tasks, user, s, e)) <==> InBatch(tasks[i], user, s, e))
  {
    var m := BatchMatches(tasks, user, s, e);
    BatchMatchesMembers(tasks, user, s, e);
    forall i | 0 <= i < |tasks| ensures tasks[i].id in IdsOf(m) <==> InBatch(tasks[i], user, s, e) {
      if tasks[i].id in IdsOf(m) {
        var u :| u in m && u.id == tasks[i].id;
        var j :| 0 <= j < |tasks| && tasks[j] == u;
        assert i == j;
      }
      if InBatch(tasks[i], user, s, e) {
        assert tasks[i] in m;
      }
    }
  }

  /** Deleting the selected rows one id at a time, as the handler does, leaves `BatchRest`. */
  lemma DeletingMatchesLeavesRest(tasks: seq<Task>, user: UserId, s: Day, e: Day)
    requires TaskIdsIncreasing(tasks)
    ensures WithoutIds(tasks, IdsOf(BatchMatches(tasks, user, s, e))) == BatchRest(tasks, user, s, e)
  {
    SelectedIds(tasks, user, s, e);
    WithoutIdsIsBatchRest(tasks, IdsOf(BatchMatches(tasks, user, s, e)), user, s, e);
  }

  /** With unique ids, removing row `i` removes exactly the rows carrying its id,
      and keeps ids increasing. */
  lemma RemoveRow(tasks: seq<Task>, i: nat)
    requires TaskIdsIncreasing(tasks) && i < |tasks|
    ensures TaskIdsIncreasing(tasks[..i] + tasks[i + 1..])
    ensures forall t :: t in tasks[..i] + tasks[i + 1..] <==> t in tasks && t.id != tasks[i].id
  {
    var r := tasks[..i] + tasks[i + 1..];
    assert forall k :: 0 <= k < |r| ==> r[k] == if k < i then tasks[k] else tasks[k + 1];
    forall t | t in tasks && t.id != tasks[i].id ensures t in r {
      var k :| 0 <= k < |tasks| && tasks[k] == t;
      assert k != i;
      if k < i { assert r[k] == t; } else { assert r[k - 1] == t; }
    }
  }
}
