/** How the scheduler rebuild turns job rows into Quartz triggers.

    Quartz itself is not modelled: whether a cron expression parses and
    whether the scheduler accepts a built trigger are the two predicates of
    `Quartz`, and fire times are never computed. */
module Scheduling {
  import opened Wrappers
  import opened Jobs

  /** The Quartz job classes `getJobExecutor` can return. */
  datatype Executor = MailJobExecutor

  /** What the rebuild registers for one job: the job detail (identity = job
      id, executor class, the job row in its data map) and its cron trigger. */
  datatype Trigger = Trigger(
    key: JobId,
    executor: Executor,
    cronExp: string,
    start: Instant,
    end: Instant,
    data: Job)

  /** The scheduling library as the rebuild observes it: whether
      `CronScheduleBuilder.cronSchedule` accepts a cron expression, and whether
      building and scheduling a trigger succeeds. */
  datatype Quartz = Quartz(cronValid: string -> bool, accepts: Trigger -> bool)

  /** Why a job got no trigger; every reason except `Expired` is an exception
      the per-job catch logs. */
  datatype Skip =
    | MissingDate   // getTime() on an absent date
    | Expired       // end date before now: skipped with `continue`
    | NoExecutor    // no job class for the job type
    | BadCron       // the cron expression does not parse
    | Rejected      // Quartz refuses the trigger
    | DuplicateKey  // a job with this identity is already scheduled

  /** `getJobExecutor`: only the job type "mail" has an executor. */
  function JobExecutor(jobType: string): (r: Option<Executor>)
    ensures r.Some? <==> jobType == "mail"
  {
    if jobType == "mail" then Some(MailJobExecutor) else None
  }

  /** The instant a trigger starts: the job's start date while it lies in the
      future, now otherwise; that is, the later of the two. */
  function StartInstant(now: Instant, startDate: Instant): (r: Instant)
    ensures now <= r && startDate <= r
    ensures r == now || r == startDate
  {
    if now < startDate then startDate else now
  }

  /** The trigger the rebuild builds for one job, or why it builds none,
      before the scheduler is asked to take it. */
  function Plan(job: Job, now: Instant, cronValid: string -> bool): (r: Result<Trigger, Skip>)
    ensures r.Ok? <==>
      && job.fields.startDate.Some? && job.fields.endDate.Some?
      && now <= job.fields.endDate.value
      && job.fields.jobType == "mail" && cronValid(job.fields.cronExp)
    ensures r == Err(Expired) <==>
      job.fields.startDate.Some? && job.fields.endDate.Some? && job.fields.endDate.value < now
    ensures r.Ok? ==>
      && r.value.key == job.id && r.value.data == job
      && r.value.executor == MailJobExecutor && r.value.cronExp == job.fields.cronExp
      && r.value.start == StartInstant(now, job.fields.startDate.value)
      && r.value.end == job.fields.endDate.value
  {
    if job.fields.startDate.None? || job.fields.endDate.None? then Err(MissingDate)
    else if job.fields.endDate.value < now then Err(Expired)
    else match JobExecutor(job.fields.jobType)
      case None => Err(NoExecutor)
      case Some(executor) =>
        if !cronValid(job.fields.cronExp) then Err(BadCron)
        else Ok(Trigger(job.id, executor, job.fields.cronExp,
                        StartInstant(now, job.fields.startDate.value),
                        job.fields.endDate.value, job))
  }

  /** A job the rebuild registers when its id is not yet taken. */
  predicate Schedulable(job: Job, now: Instant, q: Quartz)
  {
    var p := Plan(job, now, q.cronValid);
    p.Ok? && q.accepts(p.value)
  }

  /** The outcome of one iteration of the rebuild loop on the current table. */
  function Admit(table: map<JobId, Trigger>, job: Job, now: Instant, q: Quartz): (r: Result<Trigger, Skip>)
    ensures r.Ok? <==> Schedulable(job, now, q) && job.id !in table
    ensures r.Ok? ==> r == Plan(job, now, q.cronValid)
  {
    match Plan(job, now, q.cronValid)
    case Err(e) => Err(e)
    case Ok(t) =>
      if !q.accepts(t) then Err(Rejected)
      else if job.id in table then Err(DuplicateKey)
      else Ok(t)
  }

  /** The ids of the schedulable jobs of a list. */
  ghost function SchedulableIds(jobs: seq<Job>, now: Instant, q: Quartz): set<JobId>
  {
    set i | 0 <= i < |jobs| && Schedulable(jobs[i], now, q) :: jobs[i].id
  }

  /** A trigger built for one of the jobs and accepted by the scheduler. */
  ghost predicate Issued(t: Trigger, jobs: seq<Job>, now: Instant, q: Quartz)
  {
    exists j :: j in jobs && Schedulable(j, now, q) && Plan(j, now, q.cronValid) == Ok(t)
  }

  /** Each (key, trigger) pair keys the trigger by its own job's id. */
  ghost predicate TableKeyed(table: map<JobId, Trigger>)
  {
    forall k :: k in table ==> table[k].key == k && table[k].data.id == k
  }

  /** The trigger table after the rebuild loop has run over `jobs`, starting
      from `table`: each job is tried on its own and a failure only skips it.
      Whatever was there stays; the new keys are exactly the ids of the
      schedulable jobs not already present, each with a trigger built for one
      of the jobs. */
  function Register(table: map<JobId, Trigger>, jobs: seq<Job>, now: Instant, q: Quartz): (r: map<JobId, Trigger>)
    ensures r.Keys == table.Keys + SchedulableIds(jobs, now, q)
    ensures forall k :: k in table ==> r[k] == table[k]
    ensures forall k :: k in r && k !in table ==> r[k].key == k && Issued(r[k], jobs, now, q)
    decreases |jobs|
  {
    if jobs == [] then table
    else
      var n := |jobs| - 1;
      var prev := Register(table, jobs[..n], now, q);
      SchedulableIdsSnoc(jobs, now, q);
      assert forall j :: j in jobs[..n] ==> j in jobs;
      Step(prev, jobs[n], now, q)
  }

  /** The table after one iteration of the rebuild loop: the job's trigger is
      added under its id when it is admitted, and the table is unchanged when
      it is not. */
  function Step(table: map<JobId, Trigger>, job: Job, now: Instant, q: Quartz): (r: map<JobId, Trigger>)
    ensures r == if Schedulable(job, now, q) && job.id !in table
                 then table[job.id := Plan(job, now, q.cronValid).value] else table
  {
    match Admit(table, job, now, q)
    case Ok(t) => table[t.key := t]
    case Err(_) => table
  }

  lemma SchedulableIdsSnoc(jobs: seq<Job>, now: Instant, q: Quartz)
    requires jobs != []
    ensures var n := |jobs| - 1;
      SchedulableIds(jobs, now, q) ==
        SchedulableIds(jobs[..n], now, q) + (if Schedulable(jobs[n], now, q) then {jobs[n].id} else {})
  {
    var n := |jobs| - 1;
    var prefix := jobs[..n];
    forall k | k in SchedulableIds(prefix, now, q)
      ensures k in SchedulableIds(jobs, now, q)
    {
      var i :| 0 <= i < |prefix| && Schedulable(prefix[i], now, q) && prefix[i].id == k;
      assert jobs[i] == prefix[i];
    }
  }

  /** The table `configScheduler` leaves: the rebuild loop run over the jobs,
      from an empty table when `scheduler.clear()` succeeded and from the
      prior table when it failed (the failure is only logged). Every clock
      read of the loop is the one value `now`. */
  function Rebuilt(prior: map<JobId, Trigger>, clearFails: bool, jobs: seq<Job>, now: Instant, q: Quartz): (r: map<JobId, Trigger>)
    ensures !clearFails ==> r.Keys == SchedulableIds(jobs, now, q)
    ensures clearFails ==> r.Keys == prior.Keys + SchedulableIds(jobs, now, q)
    ensures clearFails ==> forall k :: k in prior ==> r[k] == prior[k]
    ensures forall k :: k in r && (!clearFails || k !in prior) ==> r[k].key == k && Issued(r[k], jobs, now, q)
  {
    Register(if clearFails then prior else map[], jobs, now, q)
  }

  /** With unique ids, a job not already in the table ends up in it exactly
      when it is schedulable, and then with the trigger built for it: a
      failing sibling never keeps a job out. */
  lemma {:induction false} RegisterExact(table: map<JobId, Trigger>, jobs: seq<Job>, now: Instant, q: Quartz)
    requires UniqueIds(jobs)
    ensures forall i :: 0 <= i < |jobs| && jobs[i].id !in table ==>
              (jobs[i].id in Register(table, jobs, now, q) <==> Schedulable(jobs[i], now, q))
    ensures forall i :: 0 <= i < |jobs| && jobs[i].id !in table && Schedulable(jobs[i], now, q) ==>
              Register(table, jobs, now, q)[jobs[i].id] == Plan(jobs[i], now, q.cronValid).value
  {
    if jobs != [] {
      var n := |jobs| - 1;
      var prefix := jobs[..n];
      assert UniqueIds(prefix);
      RegisterExact(table, prefix, now, q);
      var prev := Register(table, prefix, now, q);
      var r := Register(table, jobs, now, q);
      var last := jobs[n];
      forall i | 0 <= i < n ensures prefix[i] == jobs[i] && prefix[i].id != last.id { }
      assert last.id !in SchedulableIds(prefix, now, q);
      if Admit(prev, last, now, q).Ok? {
        assert r == prev[last.id := Plan(last, now, q.cronValid).value];
      } else {
        assert r == prev;
      }
      forall i | 0 <= i < |jobs| && jobs[i].id !in table
        ensures jobs[i].id in r <==> Schedulable(jobs[i], now, q)
        ensures Schedulable(jobs[i], now, q) ==> r[jobs[i].id] == Plan(jobs[i], now, q.cronValid).value
      {
        if i < n {
          assert jobs[i] == prefix[i];
        }
      }
    }
  }

  /** After a rebuild whose clear succeeded, each job of a list with unique ids
      has a trigger exactly when it is schedulable, whatever the table held
      before; the trigger is the one built for that job, and every key belongs
      to one of the jobs. */
  lemma RebuildExact(prior: map<JobId, Trigger>, jobs: seq<Job>, now: Instant, q: Quartz)
    requires UniqueIds(jobs)
    ensures var r := Rebuilt(prior, false, jobs, now, q);
      && (forall i :: 0 <= i < |jobs| ==> (jobs[i].id in r <==> Schedulable(jobs[i], now, q)))
      && (forall i :: 0 <= i < |jobs| && Schedulable(jobs[i], now, q) ==>
            r[jobs[i].id] == Plan(jobs[i], now, q.cronValid).value)
      && r.Keys <= Ids(jobs)
  {
    RegisterExact(map[], jobs, now, q);
    var r := Rebuilt(prior, false, jobs, now, q);
    forall k | k in r ensures k in Ids(jobs) {
      var i :| 0 <= i < |jobs| && Schedulable(jobs[i], now, q) && jobs[i].id == k;
    }
  }

  /** A job whose end date is strictly before now gets no trigger; a job
      whose end date is exactly now is still considered. */
  lemma ExpiryBoundary(prior: map<JobId, Trigger>, jobs: seq<Job>, now: Instant, q: Quartz)
    requires UniqueIds(jobs)
    ensures forall i :: 0 <= i < |jobs| && jobs[i].fields.endDate == Some(now) ==>
              (jobs[i].id in Rebuilt(prior, false, jobs, now, q) <==>
                 && jobs[i].fields.startDate.Some? && jobs[i].fields.jobType == "mail"
                 && q.cronValid(jobs[i].fields.cronExp)
                 && q.accepts(Plan(jobs[i], now, q.cronValid).value))
    ensures forall i :: 0 <= i < |jobs| && jobs[i].fields.endDate.Some? && jobs[i].fields.endDate.value < now ==>
              jobs[i].id !in Rebuilt(prior, false, jobs, now, q)
  {
    RebuildExact(prior, jobs, now, q);
  }

  /** Trigger `t` is the one built for job `j`: keyed by its id, carrying
      its row, running the mail executor, starting at the job's start date if
      that is still ahead and at now otherwise, and ending at the job's end
      date, which is not before now. */
  ghost predicate BuiltFor(t: Trigger, j: Job, now: Instant)
  {
    && t.key == j.id && t.data == j
    && j.fields.jobType == "mail" && t.executor == MailJobExecutor
    && j.fields.startDate.Some? && j.fields.endDate.Some?
    && t.start == (if now < j.fields.startDate.value then j.fields.startDate.value else now)
    && t.end == j.fields.endDate.value
    && now <= t.end
  }

  /** Every trigger a rebuild adds is the one built for one of its jobs. */
  lemma TriggerShape(table: map<JobId, Trigger>, jobs: seq<Job>, now: Instant, q: Quartz)
    ensures var r := Register(table, jobs, now, q);
      forall k :: k in r && k !in table ==> exists j :: j in jobs && BuiltFor(r[k], j, now)
  {
    var r := Register(table, jobs, now, q);
    forall k | k in r && k !in table
      ensures exists j :: j in jobs && BuiltFor(r[k], j, now)
    {
      var j :| j in jobs && Schedulable(j, now, q) && Plan(j, now, q.cronValid) == Ok(r[k]);
      assert BuiltFor(r[k], j, now);
    }
  }

  /** Per-job isolation: a job that cannot be scheduled, wherever it stands in
      the list, leaves the table exactly as if it were not there. */
  lemma {:induction false} SkipIsIsolated(table: map<JobId, Trigger>, before: seq<Job>, bad: Job, after: seq<Job>, now: Instant, q: Quartz)
    requires !Schedulable(bad, now, q)
    ensures Register(table, before + [bad] + after, now, q) == Register(table, before + after, now, q)
    decreases |after|
  {
    if after == [] {
      assert (before + [bad])[..|before|] == before;
      assert before + [bad] + after == before + [bad];
      assert before + after == before;
    } else {
      var n := |after| - 1;
      SkipIsIsolated(table, before, bad, after[..n], now, q);
      var xs := before + [bad] + after;
      var ys := before + after;
      assert xs[..|xs| - 1] == before + [bad] + after[..n];
      assert ys[..|ys| - 1] == before + after[..n];
      assert xs[|xs| - 1] == ys[|ys| - 1] == after[n];
    }
  }

  /** Running the rebuild loop a second time over the same jobs adds nothing:
      every schedulable job's id is already taken. */
  lemma RegisterIdempotent(table: map<JobId, Trigger>, jobs: seq<Job>, now: Instant, q: Quartz)
    ensures Register(Register(table, jobs, now, q), jobs, now, q) == Register(table, jobs, now, q)
  {
    var first := Register(table, jobs, now, q);
    var second := Register(first, jobs, now, q);
    assert second.Keys == first.Keys;
  }

  /** Two rebuilds at the same `now` over an unchanged store give the same
      table, whether or not the second clear succeeds, provided the first one
      did; when the first clear failed, a second failed clear keeps the table
      too. The result of a rebuild whose clear succeeded does not depend on
      the prior table. A rebuild at a later instant may differ: started jobs
      start later and jobs that have ended since are skipped. */
  lemma RebuildIdempotent(prior: map<JobId, Trigger>, other: map<JobId, Trigger>, clearFails: bool, jobs: seq<Job>, now: Instant, q: Quartz)
    ensures var first := Rebuilt(prior, false, jobs, now, q);
      Rebuilt(first, clearFails, jobs, now, q) == first
    ensures var first := Rebuilt(prior, true, jobs, now, q);
      Rebuilt(first, true, jobs, now, q) == first
    ensures Rebuilt(prior, false, jobs, now, q) == Rebuilt(other, false, jobs, now, q)
  {
    RegisterIdempotent(map[], jobs, now, q);
    RegisterIdempotent(prior, jobs, now, q);
  }

  /** Whatever the rebuild starts from, every entry it leaves is keyed by its
      own job's id. */
  lemma RegisterKeyed(table: map<JobId, Trigger>, jobs: seq<Job>, now: Instant, q: Quartz)
    requires TableKeyed(table)
    ensures TableKeyed(Register(table, jobs, now, q))
  {
    var r := Register(table, jobs, now, q);
    forall k | k in r && k !in table ensures r[k].data.id == k {
      var j :| j in jobs && Schedulable(j, now, q) && Plan(j, now, q.cronValid) == Ok(r[k]);
    }
  }
}
