/** Job records (`DashboardJob`) and the job store (`JobDao`) as JobService sees it.

    The store is an external collaborator: it is modelled as a value, the rows
    of the job table in list order plus the id the next insert receives, and
    every call JobService makes on it is one `StoreCall`. */
module Jobs {
  import opened Wrappers

  /** Job ids are the store's `Long` keys. */
  type JobId = int

  /** Milliseconds since the epoch, as `Date.getTime()` returns them. */
  type Instant = int

  /** Execution status of a job; `NotRun` is the status column of a job that
      has never been executed (it is null in the store). */
  datatype Status = NotRun | Processing | Finished | Failed

  /** The fields save and update set from their JSON argument. A date is
      absent when its text did not parse. */
  datatype JobFields = JobFields(
    name: string,
    config: string,
    cronExp: string,
    startDate: Option<Instant>,
    endDate: Option<Instant>,
    jobType: string)

  /** One row of the job table. */
  datatype Job = Job(
    id: JobId,
    userId: string,
    fields: JobFields,
    lastExecTime: Option<Instant>,
    status: Status,
    execLog: string)

  /** What save and update read from their JSON argument: the text fields as
      they are, each date as the outcome of parsing its text with the UTC
      pattern `yyyy-MM-dd'T'HH:mm:ss.SSS'Z'` (None when it does not parse). */
  datatype JobInput = JobInput(
    name: string,
    config: string,
    cronExp: string,
    startParsed: Option<Instant>,
    endParsed: Option<Instant>,
    jobType: string)

  /** The fields save and update build from their input. Both dates are parsed
      inside one try block, so when the start date fails to parse the end date
      is never parsed and stays absent too; a parse failure is only logged. */
  function FieldsFrom(input: JobInput): (f: JobFields)
    ensures f.startDate == input.startParsed
    ensures f.endDate.Some? ==> f.startDate.Some?
    ensures f.startDate.Some? ==> f.endDate == input.endParsed
    ensures f.name == input.name && f.config == input.config
    ensures f.cronExp == input.cronExp && f.jobType == input.jobType
  {
    var endDate := if input.startParsed.None? then None else input.endParsed;
    JobFields(input.name, input.config, input.cronExp, input.startParsed, endDate, input.jobType)
  }

  /** A change the store makes to one row. */
  datatype Edit =
    | SetFields(newFields: JobFields)
    | SetLastExec(at: Instant)
    | SetStatus(newStatus: Status, detail: string)

  /** The row after an edit: each edit rewrites its own columns and no other;
      no edit changes the id or the owner. */
  function ApplyEdit(job: Job, e: Edit): (r: Job)
    ensures r.id == job.id && r.userId == job.userId
    ensures r.fields == (if e.SetFields? then e.newFields else job.fields)
    ensures r.lastExecTime == (if e.SetLastExec? then Some(e.at) else job.lastExecTime)
    ensures r.status == (if e.SetStatus? then e.newStatus else job.status)
    ensures r.execLog == (if e.SetStatus? then e.detail else job.execLog)
  {
    match e
    case SetFields(f) => job.(fields := f)
    case SetLastExec(t) => job.(lastExecTime := Some(t))
    case SetStatus(s, d) => job.(status := s, execLog := d)
  }

  /** The ids present in a list of rows. */
  function Ids(rows: seq<Job>): set<JobId>
  {
    set i | 0 <= i < |rows| :: rows[i].id
  }

  /** No two rows share an id (the id is the table's primary key). */
  ghost predicate UniqueIds(rows: seq<Job>)
  {
    forall i, j :: 0 <= i < j < |rows| ==> rows[i].id != rows[j].id
  }

  /** An update `... WHERE job_id = id`: the row with that id is edited, every
      other row is left as it is, and nothing happens when no row has it. */
  function EditRows(rows: seq<Job>, id: JobId, e: Edit): (r: seq<Job>)
    ensures |r| == |rows|
    ensures forall i :: 0 <= i < |rows| ==>
              r[i] == if rows[i].id == id then ApplyEdit(rows[i], e) else rows[i]
  {
    if rows == [] then []
    else [if rows[0].id == id then ApplyEdit(rows[0], e) else rows[0]] + EditRows(rows[1..], id, e)
  }

  /** A `DELETE ... WHERE job_id = id`: exactly the rows with that id go and
      every other row stays; deleting an id that is not there changes
      nothing. */
  function RemoveRows(rows: seq<Job>, id: JobId): (r: seq<Job>)
    ensures forall j :: j in r <==> j in rows && j.id != id
    ensures id !in Ids(rows) ==> r == rows
  {
    if rows == [] then []
    else
      var rest := RemoveRows(rows[1..], id);
      assert forall j :: j in rows <==> j == rows[0] || j in rows[1..] by {
        forall j ensures j in rows <==> j == rows[0] || j in rows[1..] {
          if j in rows { var i :| 0 <= i < |rows| && rows[i] == j; if i > 0 { assert rows[1..][i - 1] == j; } }
        }
      }
      if rows[0].id == id then rest
      else
        assert id !in Ids(rows) ==> rest == rows[1..] by {
          IdsCons(rows[0], rows[1..]);
          assert [rows[0]] + rows[1..] == rows;
        }
        [rows[0]] + rest
  }

  /** A delete removes exactly its id from the ids present and keeps the
      remaining ids unique. */
  lemma {:induction false} RemoveRowsIds(rows: seq<Job>, id: JobId)
    ensures Ids(RemoveRows(rows, id)) == Ids(rows) - {id}
    ensures UniqueIds(rows) ==> UniqueIds(RemoveRows(rows, id))
  {
    if rows != [] {
      var rest := RemoveRows(rows[1..], id);
      RemoveRowsIds(rows[1..], id);
      IdsCons(rows[0], rows[1..]);
      assert [rows[0]] + rows[1..] == rows;
      if rows[0].id != id {
        assert RemoveRows(rows, id) == [rows[0]] + rest;
        IdsCons(rows[0], rest);
        if UniqueIds(rows) { UniqueCons(rows[0], rows[1..], rest); }
      }
    }
  }

  lemma IdsCons(x: Job, rest: seq<Job>)
    ensures Ids([x] + rest) == {x.id} + Ids(rest)
  {
    var xs := [x] + rest;
    forall k | k in Ids(xs) ensures k in {x.id} + Ids(rest) {
      var i :| 0 <= i < |xs| && xs[i].id == k;
      if i > 0 { assert rest[i - 1].id == k; }
    }
    forall k | k in Ids(rest) ensures k in Ids(xs) {
      var i :| 0 <= i < |rest| && rest[i].id == k;
      assert xs[i + 1].id == k;
    }
    assert xs[0].id == x.id;
  }

  /** Keeping the head of a list of unique rows in front of rows drawn from its
      tail keeps the ids unique. */
  lemma UniqueCons(x: Job, tail: seq<Job>, kept: seq<Job>)
    requires UniqueIds([x] + tail) && UniqueIds(kept)
    requires forall j :: j in kept ==> j in tail
    ensures UniqueIds([x] + kept)
  {
    forall j | j in kept ensures j.id != x.id {
      var m :| 0 <= m < |tail| && tail[m] == j;
      assert ([x] + tail)[m + 1] == j && ([x] + tail)[0] == x;
    }
    var xs := [x] + kept;
    forall a, b | 0 <= a < b < |xs| ensures xs[a].id != xs[b].id {
      if a > 0 { assert xs[a] == kept[a - 1] && xs[b] == kept[b - 1]; }
      else { assert xs[b] in kept; }
    }
  }

  /** The job table: its rows in list order and the id the next insert gets. */
  datatype Store = Store(rows: seq<Job>, nextId: JobId)

  /** Ids are unique and every id was handed out before `nextId`. */
  ghost predicate StoreValid(s: Store)
  {
    && UniqueIds(s.rows)
    && forall i :: 0 <= i < |s.rows| ==> s.rows[i].id < s.nextId
  }

  /** The row an insert writes: no execution yet. */
  function NewJob(id: JobId, userId: string, f: JobFields): Job
  {
    Job(id, userId, f, None, NotRun, "")
  }

  /** One call JobService makes on the store:
      `save`, `update(job)` (as the edit `SetFields`), `updateLastExecTime`
      and `updateStatus` (as the edits `SetLastExec` and `SetStatus`), `delete`,
      and the read `getJobList`. */
  datatype StoreCall =
    | Insert(owner: string, fields: JobFields)
    | Change(id: JobId, edit: Edit)
    | Remove(id: JobId)
    | ListJobs

  /** The store after one call. Only an insert adds an id (a fresh one) and
      only a delete removes one; the store stays valid. */
  function Apply(s: Store, c: StoreCall): (r: Store)
    ensures StoreValid(s) ==> StoreValid(r)
    ensures Ids(r.rows) == match c
                           case Insert(_, _) => Ids(s.rows) + {s.nextId}
                           case Remove(id) => Ids(s.rows) - {id}
                           case _ => Ids(s.rows)
    ensures StoreValid(s) && c.Insert? ==> s.nextId !in Ids(s.rows)
  {
    match c
    case Insert(u, f) =>
      var rows := s.rows + [NewJob(s.nextId, u, f)];
      assert Ids(rows) == Ids(s.rows) + {s.nextId} by {
        forall k | k in Ids(rows) ensures k in Ids(s.rows) + {s.nextId} {
          var i :| 0 <= i < |rows| && rows[i].id == k;
          if i < |s.rows| { assert s.rows[i].id == k; }
        }
        assert rows[|s.rows|].id == s.nextId;
        forall k | k in Ids(s.rows) ensures k in Ids(rows) {
          var i :| 0 <= i < |s.rows| && s.rows[i].id == k;
          assert rows[i].id == k;
        }
      }
      Store(rows, s.nextId + 1)
    case Change(id, e) =>
      var rows := EditRows(s.rows, id, e);
      assert Ids(rows) == Ids(s.rows) by {
        forall k | k in Ids(rows) ensures k in Ids(s.rows) {
          var i :| 0 <= i < |rows| && rows[i].id == k;
          assert s.rows[i].id == k;
        }
        forall k | k in Ids(s.rows) ensures k in Ids(rows) {
          var i :| 0 <= i < |s.rows| && s.rows[i].id == k;
          assert rows[i].id == k;
        }
      }
      s.(rows := rows)
    case Remove(id) =>
      RemoveRowsIds(s.rows, id);
      s.(rows := RemoveRows(s.rows, id))
    case ListJobs => s
  }

  /** The store after a sequence of calls, in order. */
  function ApplyAll(s: Store, cs: seq<StoreCall>): (r: Store)
    ensures StoreValid(s) ==> StoreValid(r)
    decreases |cs|
  {
    if cs == [] then s else ApplyAll(Apply(s, cs[0]), cs[1..])
  }

  /** `save` writes a row with a fresh id, owned by the caller, carrying the
      given fields and no execution record, after the rows already there. */
  lemma SaveStoresOwner(s: Store, owner: string, f: JobFields)
    requires StoreValid(s)
    ensures var r := Apply(s, Insert(owner, f));
      && |r.rows| == |s.rows| + 1
      && r.rows[..|s.rows|] == s.rows
      && var j := r.rows[|s.rows|];
         && j.id !in Ids(s.rows) && j.userId == owner && j.fields == f
         && j.lastExecTime == None && j.status == NotRun && j.execLog == ""
  {
  }

  /** `update` rewrites the editable fields of the row with the given id and
      keeps its owner and its execution record; other rows are unchanged. */
  lemma UpdateKeepsOwner(s: Store, id: JobId, f: JobFields)
    ensures var r := Apply(s, Change(id, SetFields(f)));
      && r.nextId == s.nextId && |r.rows| == |s.rows|
      && forall i :: 0 <= i < |s.rows| ==>
           if s.rows[i].id == id then
             r.rows[i] == s.rows[i].(fields := f)
           else r.rows[i] == s.rows[i]
  {
  }

  /** Deleting an id the store does not hold leaves the store unchanged. */
  lemma DeleteAbsentIsNoOp(s: Store, id: JobId)
    requires id !in Ids(s.rows)
    ensures Apply(s, Remove(id)) == s
  {
  }
}
