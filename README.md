# CBoard job scheduling, modelled in Dafny

This project models the job-scheduling core of CBoard's `JobService`
(`src/main/java/org/cboard/services/job/JobService.java`). The service keeps
user-defined dashboard jobs in a job table (`JobDao`). It keeps Quartz's
live trigger set in step with that table by a full rebuild
(`configScheduler`) after every save, update and delete. It records the
outcome of each mail execution in the job's row (`sendMail`).

The model has four modules:

- `Wrappers` (`wrappers.dfy`): `Option` (a Java reference that may be null) and `Result`.
- `Jobs` (`jobs.dfy`): a job row (`Job`) and the fields save/update read from their JSON (`JobFields`, `JobInput`).
  It also holds the job table as a value (`Store`) and the calls the service makes on it (`StoreCall`, applied by `Apply`).
- `Scheduling` (`scheduling.dfy`): `getJobExecutor`, the choice of start instant, and the trigger built for one job (`Plan`).
  It also has the rebuild loop as a fold over the job list (`Register`; `Rebuilt` adds the clear).
  The lemmas here state what a rebuild leaves in the trigger table.
- `Service` (`job_service.dfy`): the class `JobService`.
  - It holds the store, the trigger table (`map<JobId, Trigger>`) and a ghost log of every store call, in order.
  - `ConfigScheduler` is the rebuild loop, written imperatively and proved equal to `Rebuilt`.
  - `SendMail` makes the execution's store writes.
  - `Save`, `Update` and `Delete` each make one store mutation and then one rebuild.
  - The class invariant `Valid()` keeps three things true: ids are unique in the store, every trigger is keyed by its own job's id, and every status write in the log comes in the order an execution makes it.

Collaborators become values or parameters:

- Quartz is the `Quartz` pair of predicates: whether a cron expression parses, and whether building and scheduling a trigger succeeds.
  A service holds one as a constant.
- Whether `scheduler.clear()` throws is the flag `clearFails`.
- The clock is a `now` parameter. Every clock read inside one rebuild loop (`:76`, and one or two more at `:82`, in every iteration) becomes that one value.
- The mail send is a `MailOutcome` parameter: `Delivered`, or `Threw` with the stack-trace text.
- JSON and date parsing are done by the caller. `JobInput` holds each date as the result of parsing its text.

Some behaviour of the code, as modelled:

- A job is skipped in any of these cases, and the loop goes on to the next job:
  - its end date is strictly before now;
  - a date is absent;
  - its type is not "mail";
  - its cron expression is rejected;
  - Quartz refuses the trigger;
  - its id is already scheduled.
- A job whose end date equals now is not skipped as expired. It gets a trigger only when its other checks pass and Quartz accepts the trigger (`ExpiryBoundary`).
- The code never checks that the start date is before the end date. Only Quartz's acceptance can stop such a trigger.
- `update` of an id the store does not hold changes no row and still returns Success. It raises no not-found error.
- `update` and `delete` ignore the caller's user id. `delete` does no ownership check.
- `save` and `update` parse both dates inside one try block. When the start date does not parse, the end date is never parsed and stays absent.
  A job with an absent date is stored but never scheduled (`FieldsFrom`, `SavedJobScheduled`).
- When `scheduler.clear()` throws, the failure is only logged. Triggers from before then survive.
  A job already holding a key is rejected as a duplicate. So a deleted or expired job can keep its old trigger.
  The exact-table lemmas are therefore stated for a rebuild whose clear succeeded.
  `RebuildIdempotent` also covers a failed second clear.
- `RebuildIdempotent` and `DeleteAbsentKeepsTable` compare two rebuilds at the same `now`.

## Model

| member | source | states |
|---|---|---|
| `Jobs.FieldsFrom` | src/main/java/org/cboard/services/job/JobService.java:120-131 | the start date is as parsed; the end date is present only when the start date parsed, and then is as parsed; the text fields are copied |
| `Jobs.ApplyEdit` | src/main/java/org/cboard/services/job/JobService.java:105-112 | each store edit rewrites its own columns and no others; id and owner never change |
| `Jobs.EditRows` | src/main/java/org/cboard/services/job/JobService.java:107-109 | an update by id edits exactly the rows with that id and keeps the length |
| `Jobs.RemoveRows` | src/main/java/org/cboard/services/job/JobService.java:159 | a delete keeps exactly the rows with another id (as a set of rows, not their order); deleting an absent id changes nothing |
| `Jobs.RemoveRowsIds` | src/main/java/org/cboard/services/job/JobService.java:159 | after a delete the ids present are the old ones minus the deleted id, still unique |
| `Jobs.Apply` | src/main/java/org/cboard/services/job/JobService.java:132-159 | each store call keeps the store valid; only an insert adds an id, a fresh one; only a delete removes one |
| `Jobs.ApplyAll` | src/main/java/org/cboard/services/job/JobService.java:105-112 | a sequence of store calls keeps the store valid |
| `Jobs.SaveStoresOwner` | src/main/java/org/cboard/services/job/JobService.java:118-132 | save appends one row with a fresh id, the caller's user id, the given fields and no execution record (no last-exec time, status NotRun, empty detail) |
| `Jobs.UpdateKeepsOwner` | src/main/java/org/cboard/services/job/JobService.java:139-153 | update replaces only the editable fields of the row with that id; owner and execution record stay |
| `Jobs.DeleteAbsentIsNoOp` | src/main/java/org/cboard/services/job/JobService.java:159 | deleting an id the store does not hold leaves the store unchanged |
| `Scheduling.JobExecutor` | src/main/java/org/cboard/services/job/JobService.java:96-102 | an executor exists exactly for job type "mail" |
| `Scheduling.StartInstant` | src/main/java/org/cboard/services/job/JobService.java:82 | the start instant is the later of now and the start date |
| `Scheduling.Plan` | src/main/java/org/cboard/services/job/JobService.java:74-85 | a trigger is built exactly when both dates are present, the end is not before now, the type is "mail" and the cron parses; it is expired exactly when the end is before now; the trigger has the job's id and row, the max start, the end date and the cron |
| `Scheduling.Admit` | src/main/java/org/cboard/services/job/JobService.java:80-92 | one loop iteration registers a trigger exactly when the job is schedulable and its id is free |
| `Scheduling.Step` | src/main/java/org/cboard/services/job/JobService.java:86-87 | the table after one iteration gains the job's trigger under its id if admitted, else is unchanged |
| `Scheduling.Rebuilt` | src/main/java/org/cboard/services/job/JobService.java:66-93 | the table `configScheduler` leaves: after a clean clear its keys are exactly the schedulable jobs' ids; after a failed clear the prior entries stay unchanged and the schedulable ids are added; every entry it adds is keyed by and built for one of the jobs |
| `Scheduling.Register` | src/main/java/org/cboard/services/job/JobService.java:71-93 | the loop keeps what was there; its keys are the old ones plus the schedulable jobs' ids; every new entry is keyed by its own job and built for one of the jobs |
| `Scheduling.RegisterExact` | src/main/java/org/cboard/services/job/JobService.java:72-93 | with unique ids, a job whose id is free gets a trigger iff it is schedulable, and gets the one built for it, whatever its siblings do |
| `Scheduling.RebuildExact` | src/main/java/org/cboard/services/job/JobService.java:66-93 | after a rebuild with a clean clear, each job has a trigger iff schedulable, with its own trigger, and no other key exists, whatever the prior table |
| `Scheduling.ExpiryBoundary` | src/main/java/org/cboard/services/job/JobService.java:76-79 | a job whose end is before now gets no trigger; a job whose end equals now gets one iff its other checks pass |
| `Scheduling.TriggerShape` | src/main/java/org/cboard/services/job/JobService.java:80-86 | every added trigger starts at the start date when that is ahead of now, else at now; it ends at the end date, runs the mail executor and carries its job |
| `Scheduling.SkipIsIsolated` | src/main/java/org/cboard/services/job/JobService.java:72-93 | a job that cannot be scheduled, anywhere in the list, leaves the table as if it were absent |
| `Scheduling.RegisterIdempotent` | src/main/java/org/cboard/services/job/JobService.java:72-93 | running the loop again over the same jobs changes nothing |
| `Scheduling.RebuildIdempotent` | src/main/java/org/cboard/services/job/JobService.java:63-93 | two rebuilds at the same now over an unchanged store agree when the first clear succeeded, however the second goes, and when both clears failed; a clean rebuild ignores the prior table |
| `Scheduling.RegisterKeyed` | src/main/java/org/cboard/services/job/JobService.java:80-87 | the rebuild keeps every trigger keyed by its own job's id |
| `Service.FinalStatus` | src/main/java/org/cboard/services/job/JobService.java:109-112 | an execution ends Finished with "" exactly when the send returned, Failed with the stack trace exactly when it threw; the detail is empty exactly when the status is Finished (a stack trace is never empty) |
| `Service.ExecCalls` | src/main/java/org/cboard/services/job/JobService.java:104-114 | an execution writes the last-exec time first, then only status writes for the same job, in the Processing-then-outcome order |
| `Service.ExecFinalState` | src/main/java/org/cboard/services/job/JobService.java:104-114 | after an execution the job's row has last-exec = now and the outcome's status and detail (Finished with "" on success, Failed with a non-empty detail on failure), all else unchanged; an absent job changes nothing |
| `Service.JobService.constructor` | src/main/java/org/cboard/services/job/JobService.java:49-59 | a service over a valid store starts with no triggers |
| `Service.JobService.Perform` | src/main/java/org/cboard/services/job/JobService.java:105-112 | one store call: the store becomes its result and the call is logged |
| `Service.JobService.ConfigScheduler` | src/main/java/org/cboard/services/job/JobService.java:63-94 | the store is untouched and read once; the trigger table becomes the rebuild of the prior table over the store's rows; the invariant holds |
| `Service.JobService.SendMail` | src/main/java/org/cboard/services/job/JobService.java:104-114 | the store calls made are the execution's calls in order; the store is their result; the triggers are unchanged; no failure escapes |
| `Service.JobService.Save` | src/main/java/org/cboard/services/job/JobService.java:116-135 | one insert of the caller-owned job, then one rebuild of the new store; returns Success |
| `Service.JobService.Update` | src/main/java/org/cboard/services/job/JobService.java:137-156 | one field update of the row with the input id, then one rebuild; returns Success |
| `Service.JobService.Delete` | src/main/java/org/cboard/services/job/JobService.java:158-162 | one delete of the id, then one rebuild; returns Success |
| `Service.SavedJobScheduled` | src/main/java/org/cboard/services/job/JobService.java:123-133 | after save and a clean rebuild the new job has a trigger iff schedulable; never when a date failed to parse |
| `Service.DeletedJobUnscheduled` | src/main/java/org/cboard/services/job/JobService.java:158-160 | after delete and a clean rebuild the deleted id has no trigger |
| `Service.DeleteAbsentKeepsTable` | src/main/java/org/cboard/services/job/JobService.java:158-161 | deleting an absent id after a clean rebuild, with both rebuilds at the same now, leaves store and trigger table as they were |

## Left out

- `exec` (:164-170) is not modelled. It reads the job and starts a thread running `sendMail`. Only that body, `SendMail`, is modelled, as a synchronous call.
- Concurrency is left out. Rebuilds and executions run one at a time, so overlapping rebuilds and two executions of one job are not modelled.
- `main` (:177-208) is a script-engine demo unrelated to scheduling. The commented-out screenshot code (:210-272) is dead.
- Quartz internals are left out: cron parsing, fire-time computation, and the checks inside `build()` and `scheduleJob`.
  They are the two predicates of `Quartz`. No fire time is computed.
- The text formats are left out: fastjson parsing and `SimpleDateFormat`. Callers pass the parsed fields and the date parse results.
  A JSON field that is missing is not modelled. A missing `daterange` object throws out of save and update; that path is not modelled either.
- `mailService.sendDashboard` and `ExceptionUtils.getStackTrace` are external. They are the `MailOutcome` parameter.
- Clock drift within one rebuild is not modelled. In the source, the clock read at `:82` can come after the read at `:76`. A job whose end lies between the two reads then passes the expiry check, but its start falls after its end, and Quartz rejects that trigger. With one `now`, this case is not distinguished from any other rejection by `Quartz.accepts`.
- Clock drift between rebuilds is not modelled: the idempotence lemmas compare two rebuilds at the same `now`. A later rebuild starts every job whose start date has passed at the later instant, and skips jobs whose end date has passed in between.
- Logging, the Spring wiring and `afterPropertiesSet` are left out. `afterPropertiesSet` (:172-175) only calls `configScheduler`.
- `JobDao`'s SQL is not part of this model. The model assumes the following:
  - `getJobList(adminUserId)` returns every row;
  - `save` assigns the next id;
  - `update` rewrites the name, config, cron, dates and type of the row with that id;
  - `delete` of an absent id is a no-op.
- Store calls are modelled as never failing. A throwing `updateStatus(PROCESSING)` would lead to the Fail write. A throwing `updateLastExecTime` would escape `sendMail`.
- The `Trigger` keeps only what the rebuild sets. Quartz's own trigger key, priority and misfire policy are left out.
