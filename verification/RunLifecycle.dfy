/**
 * Functional test runs: run, case and step rows, and every transaction that writes them.
 * Worker results may be late, repeated, or race with cancellation and the reaper.
 */
module RunLifecycle {
  import opened Prelude

  /** `Other` is any status number a worker sends that is none of the four used. */
  datatype CaseStatus = CaseRunning | CasePassed | CaseFailed | CaseSkipped | Other(code: int)

  datatype RunStatus = Running | Passed | Failed | Aborted

  datatype Summary =
    | NoSummary
    | Counts(total: nat, passed: int, failed: nat, skipped: nat, cancelled: bool)
    | ErrorText(text: string)

  datatype RunRow = RunRow(tenant: int, status: RunStatus, started: int, finished: Option<int>, summary: Summary)

  datatype CaseRow = CaseRow(tenant: int, run: int, status: CaseStatus, durationMs: int, error: string)

  datatype StepRow = StepRow(tenant: int, caseId: int, path: string, detail: string)

  type Cases = map<int, CaseRow>

  datatype Db = Db(runs: map<int, RunRow>, cases: Cases, steps: seq<StepRow>)

  datatype CaseReport = CaseReport(id: int, status: CaseStatus, durationMs: int, error: string)

  datatype StepReport = StepReport(caseId: int, path: string, detail: string)

  /** `at` is the clock reading a close of the run would be stamped with. */
  datatype TaskResult = TaskResult(run: int, cases: seq<CaseReport>, steps: seq<StepReport>, at: int)

  datatype Error = InvalidCaseId | RunMissing | RunNotFound

  // ---- Queries ----

  function CasesOf(cases: Cases, run: int): set<int> {
    set id | id in cases && cases[id].run == run
  }

  function WithStatus(cases: Cases, run: int, status: CaseStatus): set<int> {
    set id | id in cases && cases[id].run == run && cases[id].status == status
  }

  function Done(cases: Cases, run: int): set<int> {
    set id | id in cases && cases[id].run == run && cases[id].status in {CasePassed, CaseFailed, CaseSkipped}
  }

  // ---- Updates ----

  /** The guarded update of one reported case: only a RUNNING row is touched. */
  function Reported(cases: Cases, r: CaseReport): Cases {
    if r.id in cases && cases[r.id].status == CaseRunning
    then cases[r.id := cases[r.id].(status := r.status, durationMs := r.durationMs, error := r.error)]
    else cases
  }

  /** Rows after the first `n` case reports, and the cases whose latest report was accepted. */
  datatype Intake = Intake(cases: Cases, accepted: set<int>)

  function AfterReports(cases: Cases, reports: seq<CaseReport>, n: nat): (i: Intake)
    requires n <= |reports|
    ensures i.cases.Keys == cases.Keys && i.accepted <= cases.Keys
  {
    if n == 0 then Intake(cases, {})
    else
      var before := AfterReports(cases, reports, n - 1);
      var r := reports[n - 1];
      Intake(Reported(before.cases, r),
             if r.id in before.cases && before.cases[r.id].status == CaseRunning then before.accepted + {r.id}
             else before.accepted - {r.id})
  }

  function AfterSteps(steps: seq<StepRow>, i: Intake, reports: seq<StepReport>, n: nat): seq<StepRow>
    requires n <= |reports| && i.accepted <= i.cases.Keys
  {
    if n == 0 then steps
    else
      var before := AfterSteps(steps, i, reports, n - 1);
      var r := reports[n - 1];
      if r.caseId in i.accepted then before + [StepRow(i.cases[r.caseId].tenant, r.caseId, r.path, r.detail)]
      else before
  }

  /** Finishing a run whose cases have all ended. */
  function MaybeFinished(db: Db, run: int, at: int): Result<Db, Error> {
    var total, done := |CasesOf(db.cases, run)|, |Done(db.cases, run)|;
    var failed := |WithStatus(db.cases, run, CaseFailed)|;
    var skipped := |WithStatus(db.cases, run, CaseSkipped)|;
    if total == 0 || done < total then Success(db)
    else if run !in db.runs then Failure(RunMissing)
    else if db.runs[run].status != Running then Success(db)
    else Success(db.(runs := db.runs[run := db.runs[run].(
      status := if failed > 0 then Failed else Passed,
      finished := Some(at),
      summary := Counts(total, total - failed - skipped, failed, skipped, false))]))
  }

  /** A worker's result: one transaction, rolled back as a whole on error. */
  function AfterResult(db: Db, res: TaskResult): Result<Db, Error> {
    if exists k :: 0 <= k < |res.cases| && res.cases[k].id <= 0 then Failure(InvalidCaseId)
    else
      var i := AfterReports(db.cases, res.cases, |res.cases|);
      MaybeFinished(Db(db.runs, i.cases, AfterSteps(db.steps, i, res.steps, |res.steps|)), res.run, res.at)
  }

  /** Every RUNNING case of the run gets the given status (and error, when one is written). */
  function Ended(cases: Cases, run: int, status: CaseStatus, error: Option<string>): Cases {
    map id | id in cases ::
      if cases[id].run == run && cases[id].status == CaseRunning
      then cases[id].(status := status, error := if error.Some? then error.value else cases[id].error)
      else cases[id]
  }

  predicate Cancellable(db: Db, run: int, tenant: int) {
    run in db.runs && db.runs[run].tenant == tenant && db.runs[run].status == Running
  }

  function AfterCancel(db: Db, run: int, tenant: int, at: int): Db {
    if !Cancellable(db, run, tenant) then db
    else
      var cases := Ended(db.cases, run, CaseSkipped, None);
      Db(db.runs[run := db.runs[run].(
           status := Aborted,
           finished := Some(at),
           summary := Counts(|CasesOf(cases, run)|, |WithStatus(cases, run, CasePassed)|,
                             |WithStatus(cases, run, CaseFailed)|, |WithStatus(cases, run, CaseSkipped)|, true))],
         cases, db.steps)
  }

  /** First statement of the reaper for one run; it is not in a transaction with the second. */
  function AfterReapCases(db: Db, run: int): Db {
    db.(cases := Ended(db.cases, run, CaseFailed, Some("run reaped: worker unreachable")))
  }

  function ClosedRun(db: Db, run: int, text: string, at: int): Db {
    if run in db.runs && db.runs[run].status == Running
    then db.(runs := db.runs[run := db.runs[run].(status := Failed, finished := Some(at), summary := ErrorText(text))])
    else db
  }

  function AfterReapRun(db: Db, run: int, at: int): Db {
    ClosedRun(db, run, "run timed out (reaper)", at)
  }

  /** Start-up recovery closes whatever the previous process left RUNNING. */
  function AfterRecovery(db: Db, at: int): Db {
    Db(map r | r in db.runs :: if db.runs[r].status == Running
         then db.runs[r].(status := Failed, finished := Some(at), summary := ErrorText("interrupted by scheduler restart"))
         else db.runs[r],
       map c | c in db.cases :: if db.cases[c].status == CaseRunning
         then db.cases[c].(status := CaseFailed, error := "interrupted by scheduler restart")
         else db.cases[c],
       db.steps)
  }

  /** A case that could not be prepared or sent: written by primary key, whatever its status is by now. */
  function AfterCaseFailure(db: Db, id: int, error: string): Db {
    if id in db.cases then db.(cases := db.cases[id := db.cases[id].(status := CaseFailed, error := error)]) else db
  }

  const NOTHING_DISPATCHED := Counts(0, 0, 0, 0, false)

  /** No case could be dispatched: the run is written by primary key, whatever its status is by now. */
  function AfterNoneDispatched(db: Db, run: int, at: int): Db {
    if run in db.runs
    then db.(runs := db.runs[run := db.runs[run].(status := Failed, finished := Some(at), summary := NOTHING_DISPATCHED)])
    else db
  }

  // ---- Any interleaving is a sequence of these ----

  datatype Event =
    | CreateRun(run: int, tenant: int, started: int)
    | CreateCase(id: int, run: int, tenant: int)
    | CaseFailure(id: int, error: string)
    | NoneDispatched(run: int, at: int)
    | WorkerResult(result: TaskResult)
    | Cancel(run: int, tenant: int, at: int)
    | ReapCases(run: int)
    | ReapRun(run: int, at: int)
    | Recover(at: int)

  function Next(db: Db, e: Event): Db {
    match e
    case CreateRun(run, tenant, started) => db.(runs := db.runs[run := RunRow(tenant, Running, started, None, NoSummary)])
    case CreateCase(id, run, tenant) => db.(cases := db.cases[id := CaseRow(tenant, run, CaseRunning, 0, "")])
    case CaseFailure(id, error) => AfterCaseFailure(db, id, error)
    case NoneDispatched(run, at) => AfterNoneDispatched(db, run, at)
    case WorkerResult(res) => (match AfterResult(db, res) case Success(db') => db' case Failure(_) => db)
    case Cancel(run, tenant, at) => AfterCancel(db, run, tenant, at)
    case ReapCases(run) => AfterReapCases(db, run)
    case ReapRun(run, at) => AfterReapRun(db, run, at)
    case Recover(at) => AfterRecovery(db, at)
  }

  /** Identifiers come from `NextID`, which never repeats one. */
  predicate Fresh(db: Db, e: Event) {
    && (e.CreateRun? ==> e.run !in db.runs)
    && (e.CreateCase? ==> e.id !in db.cases)
  }

  /** The state after the first `n` events. */
  function At(db: Db, es: seq<Event>, n: nat): Db
    requires n <= |es|
  {
    if n == 0 then db else Next(At(db, es, n - 1), es[n - 1])
  }

  ghost predicate FreshRun(db: Db, es: seq<Event>) {
    forall k :: 0 <= k < |es| ==> Fresh(At(db, es, k), es[k])
  }
}
