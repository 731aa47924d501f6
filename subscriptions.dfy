/**
 The request checks of `subscribe` and the queries over the `subscriptions`
 table used by `subscribe` and `unsubscribe` (app.py).
 */
module Subscriptions {
  import opened Domain

  /** A subscription request that passed every field check. */
  datatype Request = Request(startDate: Day, frequency: string, reportTime: TimeOfDay)

  datatype Checked = Accepted(request: Request) | Rejected(reply: Reply)

  predicate KnownFrequency(f: string)
  {
    f in {"daily", "weekly", "monthly"}
  }

  predicate WholeHour(t: TimeOfDay)
  {
    t.minute == 0 && t.second == 0
  }

  /** The field checks of `subscribe`, in the handler's order: presence of all
      three fields (an empty frequency counts as absent), the start date format,
      the frequency, the time format, and a time on the hour. */
  function CheckRequest(startDate: Arg<Day>, frequency: string, reportTime: Arg<TimeOfDay>): (c: Checked)
    ensures c.Accepted? <==> startDate.Given? && KnownFrequency(frequency) && reportTime.Given? && WholeHour(reportTime.value)
    ensures c.Accepted? ==> c.request == Request(startDate.value, frequency, reportTime.value)
    ensures c.Rejected? ==> StatusCode(c.reply) == 400
    ensures (startDate.Missing? || frequency == "" || reportTime.Missing?) ==> c == Rejected(MissingFields)
    ensures !startDate.Missing? && frequency != "" && !reportTime.Missing? && startDate.Malformed? ==> c == Rejected(InvalidDate)
    ensures startDate.Given? && frequency != "" && !reportTime.Missing? && !KnownFrequency(frequency) ==> c == Rejected(InvalidFrequency)
    ensures startDate.Given? && KnownFrequency(frequency) && reportTime.Malformed? ==> c == Rejected(InvalidTimeFormat)
    ensures startDate.Given? && reportTime.Given? && KnownFrequency(frequency) && !WholeHour(reportTime.value) ==> c == Rejected(NotWholeHour)
  {
    if startDate.Missing? || frequency == "" || reportTime.Missing? then Rejected(MissingFields)
    else if startDate.Malformed? then Rejected(InvalidDate)
    else if !KnownFrequency(frequency) then Rejected(InvalidFrequency)
    else if reportTime.Malformed? then Rejected(InvalidTimeFormat)
    else if !WholeHour(reportTime.value) then Rejected(NotWholeHour)
    else Accepted(Request(startDate.value, frequency, reportTime.value))
  }

  /** No user owns two subscriptions. */
  ghost predicate AtMostOnePerUser(subs: seq<Subscription>)
  {
    forall i, j :: 0 <= i < j < |subs| ==> subs[i].userId != subs[j].userId
  }

  /** `Subscription.query.filter_by(user_id=user.id).first()`: the position of
      the user's first subscription. */
  function SubscriptionOf(subs: seq<Subscription>, user: UserId): (r: Option<nat>)
    ensures r.Some? ==> r.value < |subs| && subs[r.value].userId == user
    ensures r.None? <==> forall s :: s in subs ==> s.userId != user
    decreases |subs|
  {
    if subs == [] then None
    else if subs[0].userId == user then Some(0)
    else
      match SubscriptionOf(subs[1..], user)
      case None =>
        assert subs == [subs[0]] + subs[1..];
        None
      case Some(k) => Some(k + 1)
  }

  /** The table without the row at position `i`. */
  function RemoveAt(subs: seq<Subscription>, i: nat): (r: seq<Subscription>)
    requires i < |subs|
    ensures |r| == |subs| - 1
    ensures forall k :: 0 <= k < i ==> r[k] == subs[k]
    ensures forall k :: i <= k < |r| ==> r[k] == subs[k + 1]
  {
    subs[..i] + subs[i + 1..]
  }

  /** Appending a row for a user with no subscription keeps one subscription per user. */
  lemma AppendKeepsOnePerUser(subs: seq<Subscription>, s: Subscription)
    requires AtMostOnePerUser(subs)
    requires SubscriptionOf(subs, s.userId).None?
    ensures AtMostOnePerUser(subs + [s])
  {
    forall i, j | 0 <= i < j < |subs + [s]| ensures (subs + [s])[i].userId != (subs + [s])[j].userId {
      if j == |subs| {
        assert subs[i] in subs;
      }
    }
  }

  /** Removing a row keeps ids increasing, one subscription per user, and drops
      the removed row's id from the table. */
  lemma RemoveAtKeeps(subs: seq<Subscription>, i: nat)
    requires i < |subs|
    requires SubscriptionIdsIncreasing(subs) && AtMostOnePerUser(subs)
    ensures SubscriptionIdsIncreasing(RemoveAt(subs, i)) && AtMostOnePerUser(RemoveAt(subs, i))
    ensures forall s :: s in RemoveAt(subs, i) ==> s in subs && s.id != subs[i].id
  {
    var r := RemoveAt(subs, i);
    forall s | s in r ensures s in subs && s.id != subs[i].id {
      var k :| 0 <= k < |r| && r[k] == s;
      if k >= i { assert subs[k + 1] == s; }
    }
  }

  /** With one subscription per user, removing the user's row leaves none for that user. */
  lemma RemoveOwnLeavesNone(subs: seq<Subscription>, user: UserId)
    requires AtMostOnePerUser(subs)
    requires SubscriptionOf(subs, user).Some?
    ensures SubscriptionOf(RemoveAt(subs, SubscriptionOf(subs, user).value), user).None?
  {
    var i := SubscriptionOf(subs, user).value;
    var r := RemoveAt(subs, i);
    forall s | s in r ensures s.userId != user {
      var k :| 0 <= k < |r| && r[k] == s;
      if k < i { assert subs[k].userId != subs[i].userId; }
      else { assert subs[i].userId != subs[k + 1].userId; }
    }
  }
}
