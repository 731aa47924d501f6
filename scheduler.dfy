/**
 The scheduler's job store as `schedule_reports` (app.py) uses it. A job is
 keyed by its subscription's id (the job id `subscription_{id}`), carries the
 cron hour and minute, and keeps the subscription it was installed with, which
 is what the report is built from when the job fires. `add_job` with
 `replace_existing=True` is a map update: installing a job under an existing
 key replaces it.
 */
module Scheduler {
  import opened Domain
  import Report

  datatype Job = Job(hour: Hour, minute: Minute, subscription: Subscription)

  /** The job `schedule_reports` installs for one subscription. */
  function JobFor(s: Subscription): (j: Job)
    ensures j.hour == s.reportTime.hour && j.minute == s.reportTime.minute && j.subscription == s
  {
    Job(s.reportTime.hour, s.reportTime.minute, s)
  }

  function SubscriptionIds(subs: seq<Subscription>): set<nat>
  {
    set s | s in subs :: s.id
  }

  /** The job store after installing-or-replacing one job per subscription, in order. */
  function Install(jobs: map<nat, Job>, subs: seq<Subscription>): (r: map<nat, Job>)
    ensures r.Keys == jobs.Keys + SubscriptionIds(subs)
    decreases |subs|
  {
    if subs == [] then jobs
    else
      var last := subs[|subs| - 1];
      assert subs == subs[..|subs| - 1] + [last];
      Install(jobs, subs[..|subs| - 1])[last.id := JobFor(last)]
  }

  /** Every subscription has its own job. */
  predicate Covers(jobs: map<nat, Job>, subs: seq<Subscription>)
  {
    forall i :: 0 <= i < |subs| ==> subs[i].id in jobs && jobs[subs[i].id] == JobFor(subs[i])
  }

  /** Every job belongs to a subscription. */
  predicate NoStaleJobs(jobs: map<nat, Job>, subs: seq<Subscription>)
  {
    jobs.Keys <= SubscriptionIds(subs)
  }

  /** After installing, every subscription has exactly the job built from it
      (the store is keyed, so there is one job per id). */
  lemma {:induction false} InstallCovers(jobs: map<nat, Job>, subs: seq<Subscription>)
    requires SubscriptionIdsIncreasing(subs)
    ensures Covers(Install(jobs, subs), subs)
  {
    if subs != [] {
      var init := subs[..|subs| - 1];
      var last := subs[|subs| - 1];
      InstallCovers(jobs, init);
      var r := Install(jobs, subs);
      assert r == Install(jobs, init)[last.id := JobFor(last)];
      forall i | 0 <= i < |subs| ensures subs[i].id in r && r[subs[i].id] == JobFor(subs[i]) {
        if i < |init| {
          assert init[i] == subs[i];
          assert subs[i].id != last.id;
        }
      }
    }
  }

  /** Installing never touches a job whose id is not a subscription's. */
  lemma {:induction false} InstallKeepsOthers(jobs: map<nat, Job>, subs: seq<Subscription>, k: nat)
    requires k in jobs && k !in SubscriptionIds(subs)
    ensures Install(jobs, subs)[k] == jobs[k]
  {
    if subs != [] {
      var init := subs[..|subs| - 1];
      assert forall s :: s in init ==> s in subs;
      InstallKeepsOthers(jobs, init, k);
    }
  }

  /** From a store with no stale jobs, installing leaves exactly one job per
      subscription and no other: the keys are the subscriptions' ids and each
      key holds the job built from its subscription. */
  lemma InstallExact(jobs: map<nat, Job>, subs: seq<Subscription>)
    requires SubscriptionIdsIncreasing(subs)
    requires NoStaleJobs(jobs, subs)
    ensures Install(jobs, subs).Keys == SubscriptionIds(subs)
    ensures Covers(Install(jobs, subs), subs) && NoStaleJobs(Install(jobs, subs), subs)
  {
    InstallCovers(jobs, subs);
  }

  /** Reconciling twice with the same subscriptions gives the same job store as once. */
  lemma InstallIdempotent(jobs: map<nat, Job>, subs: seq<Subscription>)
    requires SubscriptionIdsIncreasing(subs)
    ensures Install(Install(jobs, subs), subs) == Install(jobs, subs)
  {
    var once := Install(jobs, subs);
    var twice := Install(once, subs);
    InstallCovers(jobs, subs);
    InstallCovers(once, subs);
    forall k | k in twice ensures twice[k] == once[k] {
      if k in SubscriptionIds(subs) {
        var s :| s in subs && s.id == k;
        var i :| 0 <= i < |subs| && subs[i] == s;
      } else {
        InstallKeepsOthers(once, subs, k);
      }
    }
  }

  /** A firing job reports on the subscription it was installed with. */
  function Fire(job: Job, tasks: seq<Task>, today: Day): (r: seq<Task>)
    ensures forall t :: t in r <==> t in tasks && Report.InReport(t, job.subscription, today)
    ensures multiset(r) <= multiset(tasks)
  {
    Report.ReportTasks(tasks, job.subscription, today)
  }
}
