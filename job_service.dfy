/** JobService: keeps the live Quartz trigger table in step with the job store
    and records the outcome of each execution in the store. */
module Service {
  import opened Wrappers
  import opened Jobs
  import opened Scheduling

  /** `ServiceStatus.Status`. */
  datatype StatusCode = Success | Fail

  /** What the CRUD operations return to their caller. */
  datatype ServiceStatus = ServiceStatus(code: StatusCode, message: string)

  /** The text `ExceptionUtils.getStackTrace` gives; it starts with the
      exception's own description, so it is never empty. */
  type Trace = s: string | s != "" witness "e"

  /** The outcome of `mailService.sendDashboard`: it returns, or it throws and
      the exception's stack trace is what `ExceptionUtils.getStackTrace` gives. */
  datatype MailOutcome = Delivered | Threw(stackTrace: Trace)

  /** The status and detail an execution ends with. */
  function FinalStatus(outcome: MailOutcome): (r: (Status, string))
    ensures r.0 == Finished <==> outcome.Delivered?
    ensures r.0 == Failed <==> outcome.Threw?
    ensures r.1 == if outcome.Delivered? then "" else outcome.stackTrace
    ensures r.1 == "" <==> r.0 == Finished
  {
    match outcome
    case Delivered => (Finished, "")
    case Threw(trace) => (Failed, trace)
  }

  /** The store calls one execution of job `id` makes, in order. */
  function ExecCalls(id: JobId, now: Instant, outcome: MailOutcome): (r: seq<StoreCall>)
    ensures |r| == 3 && r[0] == Change(id, SetLastExec(now))
    ensures forall p :: 0 < p < |r| ==> r[p].Change? && r[p].id == id && r[p].edit.SetStatus?
    ensures ExecOrdered(r)
  {
    var (s, d) := FinalStatus(outcome);
    [Change(id, SetLastExec(now)), Change(id, SetStatus(Processing, "")), Change(id, SetStatus(s, d))]
  }

  /** The status write at position `p` of a store-call log is preceded as an
      execution makes it: a Processing write directly by a last-exec write for
      the same job, any other status write directly by a Processing write with
      an empty detail for the same job, itself so preceded. */
  ghost predicate WrittenInOrder(cs: seq<StoreCall>, p: nat)
    requires p < |cs|
  {
    match cs[p]
    case Change(id, SetStatus(s, _)) =>
      if s == Processing then
        1 <= p && cs[p - 1].Change? && cs[p - 1].id == id && cs[p - 1].edit.SetLastExec?
      else
        && 2 <= p && cs[p - 1] == Change(id, SetStatus(Processing, ""))
        && cs[p - 2].Change? && cs[p - 2].id == id && cs[p - 2].edit.SetLastExec?
    case _ => true
  }

  /** Every status write in a store-call log is preceded as an execution makes it. */
  ghost predicate ExecOrdered(cs: seq<StoreCall>)
  {
    forall p :: 0 <= p < |cs| ==> WrittenInOrder(cs, p)
  }

  /** Appending a run of calls that is itself in order to a log that is in
      order keeps the log in order. */
  lemma {:induction false} ExecOrderedAppend(cs: seq<StoreCall>, more: seq<StoreCall>)
    requires ExecOrdered(cs) && ExecOrdered(more)
    ensures ExecOrdered(cs + more)
  {
    var all := cs + more;
    forall p | 0 <= p < |all| ensures WrittenInOrder(all, p) {
      if p < |cs| {
        assert WrittenInOrder(cs, p);
        assert all[p] == cs[p];
        if p >= 1 { assert all[p - 1] == cs[p - 1]; }
        if p >= 2 { assert all[p - 2] == cs[p - 2]; }
      } else {
        var m := p - |cs|;
        assert WrittenInOrder(more, m);
        assert all[p] == more[m];
        if m >= 1 { assert all[p - 1] == more[m - 1]; }
        if m >= 2 { assert all[p - 2] == more[m - 2]; }
      }
    }
  }

  /** After one execution of a job the store holds for its row: the last-exec
      time is now whatever the outcome, the status is Finished with an empty
      detail when the mail went out and Failed with the stack trace, never
      empty, when it threw, nothing else about the row changed, and no other row changed.
      When the store no longer holds the job, nothing changes. */
  lemma ExecFinalState(s: Store, id: JobId, now: Instant, outcome: MailOutcome)
    ensures var r := ApplyAll(s, ExecCalls(id, now, outcome));
      && r.nextId == s.nextId && |r.rows| == |s.rows|
      && (forall i :: 0 <= i < |s.rows| ==>
            r.rows[i] == if s.rows[i].id == id then
                           s.rows[i].(lastExecTime := Some(now),
                                      status := FinalStatus(outcome).0,
                                      execLog := FinalStatus(outcome).1)
                         else s.rows[i])
      && (forall i :: 0 <= i < |s.rows| && s.rows[i].id == id ==>
            && r.rows[i].lastExecTime == Some(now)
            && (outcome.Delivered? ==> r.rows[i].status == Finished && r.rows[i].execLog == "")
            && (outcome.Threw? ==> r.rows[i].status == Failed && r.rows[i].execLog != ""))
      && (id !in Ids(s.rows) ==> r == s)
  {
    var cs := ExecCalls(id, now, outcome);
    var s1 := Apply(s, cs[0]);
    var s2 := Apply(s1, cs[1]);
    var s3 := Apply(s2, cs[2]);
    assert ApplyAll(s, cs) == ApplyAll(s1, cs[1..]);
    assert ApplyAll(s1, cs[1..]) == ApplyAll(s2, cs[2..]);
    assert ApplyAll(s2, cs[2..]) == ApplyAll(s3, cs[3..]);
    assert cs[3..] == [];
    if id !in Ids(s.rows) {
      assert s.rows == s1.rows == s2.rows == s3.rows by {
        forall i | 0 <= i < |s.rows| ensures s.rows[i].id != id {
          assert s.rows[i].id in Ids(s.rows);
        }
      }
    }
  }

  class JobService {
    /** The job table behind `jobDao`. */
    var store: Store
    /** The live triggers of the Quartz scheduler, by job identity. */
    var triggers: map<JobId, Trigger>
    /** Every call made on the store, in order. */
    ghost var calls: seq<StoreCall>
    /** The scheduling library's behaviour. */
    const quartz: Quartz

    ghost predicate Valid()
      reads this
    {
      StoreValid(store) && TableKeyed(triggers) && ExecOrdered(calls)
    }

    /** A service over an existing store and a scheduler with no triggers. */
    constructor (quartz: Quartz, store: Store)
      requires StoreValid(store)
      ensures Valid()
      ensures this.quartz == quartz && this.store == store
      ensures triggers == map[] && calls == []
    {
      this.quartz := quartz;
      this.store := store;
      triggers := map[];
      calls := [];
    }

    /** One call on the store. */
    method Perform(c: StoreCall)
      requires StoreValid(store)
      modifies this
      ensures StoreValid(store)
      ensures store == Apply(old(store), c) && calls == old(calls) + [c]
      ensures triggers == old(triggers)
    {
      store := Apply(store, c);
      calls := calls + [c];
    }

    /** `configScheduler`: clear the scheduler (a failed clear is only logged),
        read the job list from the store, and try each job on its own. */
    method ConfigScheduler(now: Instant, clearFails: bool)
      requires Valid()
      modifies this
      ensures Valid()
      ensures store == old(store) && calls == old(calls) + [ListJobs]
      ensures triggers == Rebuilt(old(triggers), clearFails, store.rows, now, quartz)
    {
      if !clearFails {
        triggers := map[];
      }
      ghost var base := triggers;
      Perform(ListJobs);
      ExecOrderedAppend(old(calls), [ListJobs]);
      var jobs := store.rows;
      var i := 0;
      while i < |jobs|
        invariant 0 <= i <= |jobs|
        invariant triggers == Register(base, jobs[..i], now, quartz)
        invariant store == old(store) && calls == old(calls) + [ListJobs]
      {
        var job := jobs[i];
        assert jobs[..i + 1][..i] == jobs[..i];
        ghost var expected := Step(triggers, job, now, quartz);
        assert Register(base, jobs[..i + 1], now, quartz) == expected;
        // Inside the per-job try: an absent date throws, an expired job is
        // skipped with `continue`, and every exception below is logged.
        if job.fields.startDate.Some? && job.fields.endDate.Some? && now <= job.fields.endDate.value {
          var executor := JobExecutor(job.fields.jobType);
          if executor.Some? && quartz.cronValid(job.fields.cronExp) {
            var start := StartInstant(now, job.fields.startDate.value);
            var trigger := Trigger(job.id, executor.value, job.fields.cronExp, start, job.fields.endDate.value, job);
            if quartz.accepts(trigger) && job.id !in triggers {
              triggers := triggers[job.id := trigger];
            }
          }
        }
        assert triggers == expected;
        i := i + 1;
      }
      assert jobs[..|jobs|] == jobs;
      RegisterKeyed(base, jobs, now, quartz);
    }

    /** `sendMail`: record the execution time, mark the job Processing, send,
        and record Finished or Failed; a failure of the send is logged and
        recorded, never rethrown. */
    method SendMail(job: Job, now: Instant, outcome: MailOutcome)
      requires Valid()
      modifies this
      ensures Valid()
      ensures calls == old(calls) + ExecCalls(job.id, now, outcome)
      ensures store == ApplyAll(old(store), ExecCalls(job.id, now, outcome))
      ensures triggers == old(triggers)
    {
      Perform(Change(job.id, SetLastExec(now)));
      Perform(Change(job.id, SetStatus(Processing, "")));
      match outcome {
        case Delivered =>
          Perform(Change(job.id, SetStatus(Finished, "")));
        case Threw(trace) =>
          Perform(Change(job.id, SetStatus(Failed, trace)));
      }
      ghost var cs := ExecCalls(job.id, now, outcome);
      assert calls == old(calls) + cs;
      ExecOrderedAppend(old(calls), cs);
      ghost var s1 := Apply(old(store), cs[0]);
      ghost var s2 := Apply(s1, cs[1]);
      assert store == Apply(s2, cs[2]);
      assert ApplyAll(old(store), cs) == ApplyAll(s1, cs[1..]);
      assert ApplyAll(s1, cs[1..]) == ApplyAll(s2, cs[2..]);
      assert ApplyAll(s2, cs[2..]) == ApplyAll(Apply(s2, cs[2]), cs[3..]);
      assert cs[3..] == [];
    }

    /** `save`: insert a job owned by the caller, rebuild, report success. */
    method Save(userId: string, input: JobInput, now: Instant, clearFails: bool) returns (status: ServiceStatus)
      requires Valid()
      modifies this
      ensures Valid()
      ensures store == Apply(old(store), Insert(userId, FieldsFrom(input)))
      ensures calls == old(calls) + [Insert(userId, FieldsFrom(input)), ListJobs]
      ensures triggers == Rebuilt(old(triggers), clearFails, store.rows, now, quartz)
      ensures status == ServiceStatus(Success, "success")
    {
      Perform(Insert(userId, FieldsFrom(input)));
      ExecOrderedAppend(old(calls), [Insert(userId, FieldsFrom(input))]);
      ConfigScheduler(now, clearFails);
      status := ServiceStatus(Success, "success");
    }

    /** `update`: rewrite the fields of the job with the given id, rebuild,
        report success. The caller's user id is not used. */
    method Update(userId: string, id: JobId, input: JobInput, now: Instant, clearFails: bool) returns (status: ServiceStatus)
      requires Valid()
      modifies this
      ensures Valid()
      ensures store == Apply(old(store), Change(id, SetFields(FieldsFrom(input))))
      ensures calls == old(calls) + [Change(id, SetFields(FieldsFrom(input))), ListJobs]
      ensures triggers == Rebuilt(old(triggers), clearFails, store.rows, now, quartz)
      ensures status == ServiceStatus(Success, "success")
    {
      Perform(Change(id, SetFields(FieldsFrom(input))));
      ExecOrderedAppend(old(calls), [Change(id, SetFields(FieldsFrom(input)))]);
      ConfigScheduler(now, clearFails);
      status := ServiceStatus(Success, "success");
    }

    /** `delete`: remove the job with the given id, rebuild, report success.
        The caller's user id is not used. */
    method Delete(userId: string, id: JobId, now: Instant, clearFails: bool) returns (status: ServiceStatus)
      requires Valid()
      modifies this
      ensures Valid()
      ensures store == Apply(old(store), Remove(id))
      ensures calls == old(calls) + [Remove(id), ListJobs]
      ensures triggers == Rebuilt(old(triggers), clearFails, store.rows, now, quartz)
      ensures status == ServiceStatus(Success, "success")
    {
      Perform(Remove(id));
      ExecOrderedAppend(old(calls), [Remove(id)]);
      ConfigScheduler(now, clearFails);
      status := ServiceStatus(Success, "success");
    }
  }

  /** After `save` with a clean clear, the new job has a trigger exactly when
      it is schedulable; in particular a job whose start or end date did not
      parse gets none. */
  lemma SavedJobScheduled(s: Store, userId: string, input: JobInput, prior: map<JobId, Trigger>, now: Instant, q: Quartz)
    requires StoreValid(s)
    ensures var after := Apply(s, Insert(userId, FieldsFrom(input)));
      var job := NewJob(s.nextId, userId, FieldsFrom(input));
      && (s.nextId in Rebuilt(prior, false, after.rows, now, q) <==> Schedulable(job, now, q))
      && (input.startParsed.None? || input.endParsed.None? ==>
            s.nextId !in Rebuilt(prior, false, after.rows, now, q))
  {
    var after := Apply(s, Insert(userId, FieldsFrom(input)));
    RebuildExact(prior, after.rows, now, q);
    assert after.rows[|s.rows|] == NewJob(s.nextId, userId, FieldsFrom(input));
  }

  /** After `delete` with a clean clear, the deleted id has no trigger. */
  lemma DeletedJobUnscheduled(s: Store, id: JobId, prior: map<JobId, Trigger>, now: Instant, q: Quartz)
    requires StoreValid(s)
    ensures id !in Rebuilt(prior, false, Apply(s, Remove(id)).rows, now, q)
  {
    RebuildExact(prior, Apply(s, Remove(id)).rows, now, q);
  }

  /** Deleting an id the store does not hold, after a clean rebuild of that
      store at the same `now`, leaves both the store and the trigger table as
      they were, however the clear of the second rebuild goes. */
  lemma DeleteAbsentKeepsTable(s: Store, id: JobId, prior: map<JobId, Trigger>, clearFails: bool, now: Instant, q: Quartz)
    requires id !in Ids(s.rows)
    ensures Apply(s, Remove(id)) == s
    ensures var table := Rebuilt(prior, false, s.rows, now, q);
      Rebuilt(table, clearFails, Apply(s, Remove(id)).rows, now, q) == table
  {
    DeleteAbsentIsNoOp(s, id);
    RebuildIdempotent(prior, prior, clearFails, s.rows, now, q);
  }
}
