/**
 The records of the task-management service (the `users`, `tasks` and
 `subscriptions` tables of app.py), the shape of parsed request arguments and
 the replies of the HTTP handlers.

 Dates are day ordinals (`Day`), so "d minus n days" is `d - n`. A parsed
 time of day keeps the hour, minute and second fields that the source reads.
 */
module Domain {

  type UserId = nat

  /** A calendar date as a day ordinal. */
  type Day = int

  datatype Option<T> = None | Some(value: T)

  /** A request argument: absent or empty, present but not parseable, or parsed. */
  datatype Arg<T> = Missing | Malformed | Given(value: T)

  /** A field of an update request: absent (keep the stored value) or given. */
  datatype Field<T> = Keep | Set(value: T)

  type Hour = h: int | 0 <= h < 24
  type Minute = m: int | 0 <= m < 60
  type Second = s: int | 0 <= s < 60

  datatype TimeOfDay = TimeOfDay(hour: Hour, minute: Minute, second: Second)

  /** A row of the `tasks` table; the nullable columns are options. */
  datatype Task = Task(
    id: nat,
    title: string,
    description: Option<string>,
    startDate: Option<Day>,
    dueDate: Option<Day>,
    completionDate: Option<Day>,
    status: string,
    userId: UserId)

  /** A row of the `subscriptions` table. The frequency is stored as text. */
  datatype Subscription = Subscription(
    id: nat,
    userId: UserId,
    startDate: Day,
    frequency: string,
    reportTime: TimeOfDay)

  /** The outcome of a request handler; `StatusCode` gives its HTTP status. */
  datatype Reply =
    | Done                 // 200
    | Created              // 201
    | MissingFields        // 400: a required field or argument is absent
    | InvalidDate          // 400: a date does not parse as YYYY-MM-DD
    | InvalidFrequency     // 400: frequency is not daily, weekly or monthly
    | InvalidTimeFormat    // 400: report_time does not parse as HH:MM:SS
    | NotWholeHour         // 400: report_time has non-zero minutes or seconds
    | AlreadySubscribed    // 400: the user already has a subscription
    | NotFound             // 404

  function StatusCode(r: Reply): (code: int)
    ensures code == 200 <==> r == Done
    ensures code == 201 <==> r == Created
    ensures code == 404 <==> r == NotFound
    ensures code == 400 <==> !(r in {Done, Created, NotFound})
  {
    match r
    case Done => 200
    case Created => 201
    case NotFound => 404
    case _ => 400
  }

  /** Row ids strictly increase along a table, as auto-increment keys do. */
  ghost predicate TaskIdsIncreasing(ts: seq<Task>)
  {
    forall i, j :: 0 <= i < j < |ts| ==> ts[i].id < ts[j].id
  }

  ghost predicate SubscriptionIdsIncreasing(ss: seq<Subscription>)
  {
    forall i, j :: 0 <= i < j < |ss| ==> ss[i].id < ss[j].id
  }
}
