/** Exactly-once results, conserved summaries and absence of stalls, over every interleaving. */
module RunTheorems {
  import opened Prelude
  import opened RunLifecycle

  /** A worker never reports the status RUNNING. */
  predicate WellReported(res: TaskResult) {
    forall k :: 0 <= k < |res.cases| ==> res.cases[k].status != CaseRunning
  }

  predicate Mentions(reports: seq<CaseReport>, n: nat, id: int)
    requires n <= |reports|
  {
    exists k :: 0 <= k < n && reports[k].id == id
  }

  // ---- One result ----

  /** A row that has left RUNNING is out of reach of any result. */
  lemma {:induction false} EndedRowUntouched(cases: Cases, reports: seq<CaseReport>, n: nat, id: int)
    requires n <= |reports|
    requires id in cases && (cases[id].status == CaseRunning ==> !Mentions(reports, n, id))
    ensures AfterReports(cases, reports, n).cases[id] == cases[id]
    ensures id !in AfterReports(cases, reports, n).accepted
  {
    if n > 0 {
      if cases[id].status == CaseRunning {
        assert reports[n - 1].id != id;
        assert !Mentions(reports, n - 1, id);
      }
      EndedRowUntouched(cases, reports, n - 1, id);
    }
  }

  /** A RUNNING row takes its first report; later ones in the same result bounce off. */
  lemma {:induction false} FirstReportWins(cases: Cases, reports: seq<CaseReport>, n: nat, f: nat)
    requires f < n <= |reports| && reports[f].id in cases && cases[reports[f].id].status == CaseRunning
    requires forall k :: 0 <= k < f ==> reports[k].id != reports[f].id
    requires reports[f].status != CaseRunning
    ensures var id := reports[f].id;
            var after := AfterReports(cases, reports, n);
            && after.cases[id] == CaseRow(cases[id].tenant, cases[id].run, reports[f].status, reports[f].durationMs, reports[f].error)
            && (id in after.accepted <==> forall k :: f < k < n ==> reports[k].id != id)
  {
    var id := reports[f].id;
    if n == f + 1 {
      EndedRowUntouched(cases, reports, f, id);
    } else {
      FirstReportWins(cases, reports, n - 1, f);
    }
  }

  lemma {:induction false} FirstMention(reports: seq<CaseReport>, n: nat, id: int) returns (f: nat)
    requires n <= |reports| && Mentions(reports, n, id)
    ensures f < n && reports[f].id == id && forall k :: 0 <= k < f ==> reports[k].id != id
  {
    if Mentions(reports, n - 1, id) {
      f := FirstMention(reports, n - 1, id);
    } else {
      f := n - 1;
    }
  }

  // ---- Step rows ----

  function RowsOf(steps: seq<StepRow>, c: int): seq<StepRow> {
    if steps == [] then []
    else RowsOf(steps[..|steps| - 1], c) + if steps[|steps| - 1].caseId == c then [steps[|steps| - 1]] else []
  }

  /** The step rows a result carries for one case. */
  function Carried(reports: seq<StepReport>, n: nat, c: int, tenant: int): seq<StepRow>
    requires n <= |reports|
  {
    if n == 0 then []
    else Carried(reports, n - 1, c, tenant)
         + if reports[n - 1].caseId == c then [StepRow(tenant, c, reports[n - 1].path, reports[n - 1].detail)] else []
  }

  lemma RowsOfOneMore(steps: seq<StepRow>, row: StepRow, c: int)
    ensures RowsOf(steps + [row], c) == RowsOf(steps, c) + if row.caseId == c then [row] else []
  {
    assert (steps + [row])[..|steps|] == steps;
  }

  lemma {:induction false} AfterStepsRows(steps: seq<StepRow>, i: Intake, reports: seq<StepReport>, n: nat, c: int)
    requires n <= |reports| && i.accepted <= i.cases.Keys
    ensures RowsOf(AfterSteps(steps, i, reports, n), c) ==
            RowsOf(steps, c) + if c in i.accepted then Carried(reports, n, c, i.cases[c].tenant) else []
  {
    if n > 0 {
      AfterStepsRows(steps, i, reports, n - 1, c);
      var before := AfterSteps(steps, i, reports, n - 1);
      var r := reports[n - 1];
      if r.caseId in i.accepted {
        RowsOfOneMore(before, StepRow(i.cases[r.caseId].tenant, r.caseId, r.path, r.detail), c);
      }
      hide RowsOf;
    }
  }

  lemma {:induction false} ReportsKeepTenantAndRun(cases: Cases, reports: seq<CaseReport>, n: nat, id: int)
    requires n <= |reports| && id in cases
    ensures AfterReports(cases, reports, n).cases[id].tenant == cases[id].tenant
    ensures AfterReports(cases, reports, n).cases[id].run == cases[id].run
  {
    if n > 0 {
      ReportsKeepTenantAndRun(cases, reports, n - 1, id);
    }
  }

  /** `f` is the first report on `c`. */
  predicate FirstOn(reports: seq<CaseReport>, f: nat, c: int) {
    f < |reports| && reports[f].id == c && forall k :: 0 <= k < f ==> reports[k].id != c
  }

  /** The row of case `c` after its reports: status, duration and error text of the first, if it was RUNNING. */
  ghost predicate TakenIn(was: CaseRow, c: int, reports: seq<CaseReport>, row: CaseRow) {
    if was.status == CaseRunning && Mentions(reports, |reports|, c)
    then exists f: nat :: FirstOn(reports, f, c)
           && row == CaseRow(was.tenant, was.run, reports[f].status, reports[f].durationMs, reports[f].error)
    else row == was
  }

  /** What one result does to one case: nothing unless it was RUNNING, and then all or none of its steps. */
  lemma ResultOnCase(db: Db, res: TaskResult, c: int)
    requires AfterResult(db, res).Success? && WellReported(res) && c in db.cases
    ensures var after := AfterResult(db, res).value;
            var touched := db.cases[c].status == CaseRunning && Mentions(res.cases, |res.cases|, c);
            && c in after.cases
            && (!touched ==> after.cases[c] == db.cases[c] && RowsOf(after.steps, c) == RowsOf(db.steps, c))
            && (touched ==>
                  exists f: nat :: FirstOn(res.cases, f, c)
                    && after.cases[c] == CaseRow(db.cases[c].tenant, db.cases[c].run, res.cases[f].status,
                                                 res.cases[f].durationMs, res.cases[f].error)
                    && after.cases[c].status != CaseRunning
                    && RowsOf(after.steps, c) == RowsOf(db.steps, c)
                       + if forall k :: f < k < |res.cases| ==> res.cases[k].id != c
                         then Carried(res.steps, |res.steps|, c, db.cases[c].tenant) else [])
  {
    var n := |res.cases|;
    var i := AfterReports(db.cases, res.cases, n);
    AfterStepsRows(db.steps, i, res.steps, |res.steps|, c);
    ReportsKeepTenantAndRun(db.cases, res.cases, n, c);
    if db.cases[c].status == CaseRunning && Mentions(res.cases, n, c) {
      var f := FirstMention(res.cases, n, c);
      assert FirstOn(res.cases, f, c);
      FirstReportWins(db.cases, res.cases, n, f);
    } else {
      EndedRowUntouched(db.cases, res.cases, n, c);
    }
  }

  /** A result reaches no row but those of the cases it names: a failed one changes nothing at all. */
  lemma NextOnCase(db: Db, e: Event, c: int)
    requires Fresh(db, e) && c in db.cases && (e.WorkerResult? ==> WellReported(e.result))
    ensures c in Next(db, e).cases
    ensures db.cases[c].status != CaseRunning ==>
              Next(db, e).cases[c].status != CaseRunning && RowsOf(Next(db, e).steps, c) == RowsOf(db.steps, c)
    ensures Next(db, e).cases[c].run == db.cases[c].run
    ensures RowsOf(Next(db, e).steps, c) != RowsOf(db.steps, c) ==>
              && e.WorkerResult? && db.cases[c].status == CaseRunning && Next(db, e).cases[c].status != CaseRunning
              && RowsOf(Next(db, e).steps, c) == RowsOf(db.steps, c)
                 + Carried(e.result.steps, |e.result.steps|, c, db.cases[c].tenant)
  {
    if e.WorkerResult? && AfterResult(db, e.result).Success? {
      ResultOnCase(db, e.result, c);
      ReportsKeepTenantAndRun(db.cases, e.result.cases, |e.result.cases|, c);
    }
  }

  /** No event reopens a case or adds rows to one that has left RUNNING - whatever statuses workers report. */
  lemma EndedCaseStays(db: Db, e: Event, c: int)
    requires Fresh(db, e) && c in db.cases && db.cases[c].status != CaseRunning
    ensures c in Next(db, e).cases && Next(db, e).cases[c].status != CaseRunning
    ensures RowsOf(Next(db, e).steps, c) == RowsOf(db.steps, c)
  {
    if e.WorkerResult? && AfterResult(db, e.result).Success? {
      var n := |e.result.cases|;
      EndedRowUntouched(db.cases, e.result.cases, n, c);
      AfterStepsRows(db.steps, AfterReports(db.cases, e.result.cases, n), e.result.steps, |e.result.steps|, c);
    }
  }

  // ---- Exactly once, over all runs ----

  ghost predicate GoodEvents(es: seq<Event>) {
    forall k :: 0 <= k < |es| && es[k].WorkerResult? ==> WellReported(es[k].result)
  }

  /** A case that has left RUNNING never returns to it, whatever happens. */
  lemma {:induction false} NeverBackToRunning(db: Db, es: seq<Event>, i: nat, j: nat, c: int)
    requires i <= j <= |es| && FreshRun(db, es)
    requires c in At(db, es, i).cases && At(db, es, i).cases[c].status != CaseRunning
    ensures c in At(db, es, j).cases && At(db, es, j).cases[c].status != CaseRunning
    ensures RowsOf(At(db, es, j).steps, c) == RowsOf(At(db, es, i).steps, c)
    decreases j - i
  {
    hide Next;
    if i < j {
      NeverBackToRunning(db, es, i, j - 1, c);
      EndedCaseStays(At(db, es, j - 1), es[j - 1], c);
    }
  }

  predicate AddsRows(db: Db, es: seq<Event>, k: nat, c: int)
    requires k < |es|
  {
    RowsOf(At(db, es, k + 1).steps, c) != RowsOf(At(db, es, k).steps, c)
  }

  /**
   * At most one event of a run adds step rows to a case. It is the worker result that moved the
   * case out of RUNNING, and the rows are that result's rows for the case.
   */
  lemma StepRowsHaveOneSource(db: Db, es: seq<Event>, k: nat, c: int)
    requires FreshRun(db, es) && GoodEvents(es)
    requires k < |es| && c in At(db, es, k).cases && AddsRows(db, es, k, c)
    ensures es[k].WorkerResult?
    ensures At(db, es, k).cases[c].status == CaseRunning
    ensures c in At(db, es, k + 1).cases && At(db, es, k + 1).cases[c].status != CaseRunning
    ensures RowsOf(At(db, es, |es|).steps, c) == RowsOf(At(db, es, k).steps, c)
            + Carried(es[k].result.steps, |es[k].result.steps|, c, At(db, es, k).cases[c].tenant)
    ensures forall j :: k < j < |es| ==> !AddsRows(db, es, j, c)
  {
    hide Next, RowsOf, Carried;
    NextOnCase(At(db, es, k), es[k], c);
    hide At, Fresh;
    NeverBackToRunning(db, es, k + 1, |es|, c);
    forall j | k < j < |es|
      ensures !AddsRows(db, es, j, c)
    {
      NeverBackToRunning(db, es, k + 1, j, c);
      NeverBackToRunning(db, es, k + 1, j + 1, c);
    }
  }

  /** Why workers must not report RUNNING: such a result leaves the case open and can be taken again. */
  lemma RunningReportRepeats(db: Db, c: int, path: string, detail: string, at: int)
    requires c > 0 && c in db.cases && db.cases[c].status == CaseRunning
    ensures var row := db.cases[c];
            var res := TaskResult(row.run, [CaseReport(c, CaseRunning, row.durationMs, row.error)],
                                  [StepReport(c, path, detail)], at);
            && !WellReported(res)
            && Next(db, WorkerResult(res)) == db.(steps := db.steps + [StepRow(row.tenant, c, path, detail)])
  {
    var row := db.cases[c];
    var report := CaseReport(c, CaseRunning, row.durationMs, row.error);
    var res := TaskResult(row.run, [report], [StepReport(c, path, detail)], at);
    assert res.cases[0].status == CaseRunning;
    var i := AfterReports(db.cases, res.cases, 1);
    assert AfterReports(db.cases, res.cases, 0) == Intake(db.cases, {});
    assert Reported(db.cases, report) == db.cases;
    assert i == Intake(db.cases, {c});
    var step := StepRow(row.tenant, c, path, detail);
    assert AfterSteps(db.steps, i, res.steps, 0) == db.steps;
    assert AfterSteps(db.steps, i, res.steps, 1) == db.steps + [step];
    OpenRunNotFinished(Db(db.runs, db.cases, db.steps + [step]), c, at);
  }

  lemma OpenRunNotFinished(db: Db, c: int, at: int)
    requires c in db.cases && db.cases[c].status == CaseRunning
    ensures MaybeFinished(db, db.cases[c].run, at) == Success(db)
  {
    var run := db.cases[c].run;
    assert c in CasesOf(db.cases, run) && c !in Done(db.cases, run);
    DoneWithinCases(db.cases, run);
  }

  lemma DoneWithinCases(cases: Cases, run: int)
    ensures Done(cases, run) <= CasesOf(cases, run)
    ensures |Done(cases, run)| <= |CasesOf(cases, run)|
    ensures |Done(cases, run)| == |CasesOf(cases, run)| <==> Done(cases, run) == CasesOf(cases, run)
  {
    var rest := CasesOf(cases, run) - Done(cases, run);
    assert CasesOf(cases, run) == Done(cases, run) + rest;
    assert |CasesOf(cases, run)| == |Done(cases, run)| + |rest|;
  }

  // ---- Finished rows are final, exactly when no unguarded write hits them ----

  /** The two writes by primary key that ignore the current status. */
  predicate OverwritesCase(db: Db, e: Event, c: int)
    requires c in db.cases
  {
    e.CaseFailure? && e.id == c && (db.cases[c].status != CaseFailed || db.cases[c].error != e.error)
  }

  predicate OverwritesRun(db: Db, e: Event, r: int)
    requires r in db.runs
  {
    && e.NoneDispatched? && e.run == r
    && !(db.runs[r].status == Failed && db.runs[r].finished == Some(e.at) && db.runs[r].summary == NOTHING_DISPATCHED)
  }

  lemma FinishedCaseFinal(db: Db, e: Event, c: int)
    requires Fresh(db, e) && c in db.cases && db.cases[c].status != CaseRunning
    ensures c in Next(db, e).cases
    ensures Next(db, e).cases[c] == db.cases[c] <==> !OverwritesCase(db, e, c)
  {
    if e.WorkerResult? {
      EndedRowUntouched(db.cases, e.result.cases, |e.result.cases|, c);
    }
  }

  lemma FinishedRunFinal(db: Db, e: Event, r: int)
    requires Fresh(db, e) && r in db.runs && db.runs[r].status != Running
    ensures r in Next(db, e).runs
    ensures Next(db, e).runs[r] == db.runs[r] <==> !OverwritesRun(db, e, r)
  {
  }

  /** Over a whole run: a finished run row keeps its status and summary until an unguarded write hits it. */
  lemma {:induction false} FinishedRunStays(db: Db, es: seq<Event>, i: nat, j: nat, r: int)
    requires i <= j <= |es| && FreshRun(db, es)
    requires r in At(db, es, i).runs && At(db, es, i).runs[r].status != Running
    requires forall k :: i <= k < j && r in At(db, es, k).runs ==> !OverwritesRun(At(db, es, k), es[k], r)
    ensures r in At(db, es, j).runs && At(db, es, j).runs[r] == At(db, es, i).runs[r]
    decreases j - i
  {
    hide Next;
    if i < j {
      FinishedRunStays(db, es, i, j - 1, r);
      FinishedRunFinal(At(db, es, j - 1), es[j - 1], r);
    }
  }

  lemma {:induction false} FinishedCaseStays(db: Db, es: seq<Event>, i: nat, j: nat, c: int)
    requires i <= j <= |es| && FreshRun(db, es)
    requires c in At(db, es, i).cases && At(db, es, i).cases[c].status != CaseRunning
    requires forall k :: i <= k < j && c in At(db, es, k).cases ==> !OverwritesCase(At(db, es, k), es[k], c)
    ensures c in At(db, es, j).cases && At(db, es, j).cases[c] == At(db, es, i).cases[c]
    decreases j - i
  {
    hide Next;
    if i < j {
      FinishedCaseStays(db, es, i, j - 1, c);
      FinishedCaseFinal(At(db, es, j - 1), es[j - 1], c);
    }
  }

  // ---- How the unguarded writes are reached ----

  const EMPTY := Db(map[], map[], [])

  /** A run cancelled while its trigger still finds nothing to dispatch: ABORTED is overwritten with FAILED. */
  lemma CancelledRunOverwritten(run: int, tenant: int, started: int, at: int, later: int)
    ensures var es := [CreateRun(run, tenant, started), Cancel(run, tenant, at), NoneDispatched(run, later)];
            && FreshRun(EMPTY, es)
            && run in At(EMPTY, es, 2).runs && At(EMPTY, es, 2).runs[run].status == Aborted
            && OverwritesRun(At(EMPTY, es, 2), es[2], run)
            && run in At(EMPTY, es, 3).runs && At(EMPTY, es, 3).runs[run].status == Failed
  {
    var es := [CreateRun(run, tenant, started), Cancel(run, tenant, at), NoneDispatched(run, later)];
    var d1 := Next(EMPTY, es[0]);
    var d2 := Next(d1, es[1]);
    assert At(EMPTY, es, 0) == EMPTY;
    assert At(EMPTY, es, 1) == d1;
    assert At(EMPTY, es, 2) == d2;
    assert At(EMPTY, es, 3) == Next(d2, es[2]);
  }

  /** A case cancelled while it is being prepared: SKIPPED is overwritten with FAILED. */
  lemma CancelledCaseOverwritten(run: int, tenant: int, started: int, at: int, c: int, error: string)
    ensures var es := [CreateRun(run, tenant, started), CreateCase(c, run, tenant), Cancel(run, tenant, at), CaseFailure(c, error)];
            && FreshRun(EMPTY, es)
            && c in At(EMPTY, es, 3).cases && At(EMPTY, es, 3).cases[c].status == CaseSkipped
            && OverwritesCase(At(EMPTY, es, 3), es[3], c)
            && c in At(EMPTY, es, 4).cases && At(EMPTY, es, 4).cases[c].status == CaseFailed
  {
    var es := [CreateRun(run, tenant, started), CreateCase(c, run, tenant), Cancel(run, tenant, at), CaseFailure(c, error)];
    var d1 := Next(EMPTY, es[0]);
    var d2 := Next(d1, es[1]);
    var d3 := Next(d2, es[2]);
    assert At(EMPTY, es, 0) == EMPTY;
    assert At(EMPTY, es, 1) == d1;
    assert At(EMPTY, es, 2) == d2;
    assert At(EMPTY, es, 3) == d3;
    assert At(EMPTY, es, 4) == Next(d3, es[3]);
  }
}
