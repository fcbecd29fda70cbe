/**
 * The run tables as mutable state. Every method is one of the scheduler's transactions, or a
 * loop of them; `log` records the events, so a store's state is always a state of `At`.
 */
module RunStore {
  import opened Prelude
  import opened RunLifecycle
  import opened RunTheorems

  lemma AtPrefix(db: Db, es: seq<Event>, e: Event, n: nat)
    requires n <= |es|
    ensures At(db, es + [e], n) == At(db, es, n)
  {
    hide Next;
    if n > 0 {
      AtPrefix(db, es, e, n - 1);
    }
  }

  lemma AtAppend(db: Db, es: seq<Event>, e: Event)
    ensures At(db, es + [e], |es| + 1) == Next(At(db, es, |es|), e)
  {
    hide Next;
    AtPrefix(db, es, e, |es|);
  }

  /** What became of one plan item: the case is missing, cannot be prepared or sent, or is on its way. */
  datatype Attempt = Missing | Unsendable(id: int, error: string) | Sent(id: int)

  function SentIds(attempts: seq<Attempt>, n: nat): set<int>
    requires n <= |attempts|
  {
    set k | 0 <= k < n && attempts[k].Sent? :: attempts[k].id
  }

  predicate AnySent(attempts: seq<Attempt>, n: nat)
    requires n <= |attempts|
  {
    exists j :: 0 <= j < n && attempts[j].Sent?
  }

  /** The identifiers from the `k`-th attempt on are new and distinct. */
  predicate FreshFrom(cases: Cases, attempts: seq<Attempt>, k: nat) {
    && (forall i :: k <= i < |attempts| && !attempts[i].Missing? ==> attempts[i].id !in cases)
    && (forall i, j :: k <= i < j < |attempts| && !attempts[i].Missing? && !attempts[j].Missing? ==>
                         attempts[i].id != attempts[j].id)
  }

  /** The writes for one plan item. */
  function AttemptEvents(a: Attempt, run: int, tenant: int): seq<Event> {
    match a
    case Missing => []
    case Sent(id) => [CreateCase(id, run, tenant)]
    case Unsendable(id, error) => [CreateCase(id, run, tenant), CaseFailure(id, error)]
  }

  function PlanEvents(attempts: seq<Attempt>, n: nat, run: int, tenant: int): seq<Event>
    requires n <= |attempts|
  {
    if n == 0 then [] else PlanEvents(attempts, n - 1, run, tenant) + AttemptEvents(attempts[n - 1], run, tenant)
  }

  function ReapEvents(ids: seq<int>, n: nat, at: int): seq<Event>
    requires n <= |ids|
  {
    if n == 0 then [] else ReapEvents(ids, n - 1, at) + [ReapCases(ids[n - 1]), ReapRun(ids[n - 1], at)]
  }

  lemma NoReapEvents(ids: seq<int>, at: int)
    ensures ReapEvents(ids, 0, at) == []
  {
  }

  lemma OneMoreReaped(log: seq<Event>, ids: seq<int>, k: nat, at: int)
    requires k < |ids|
    ensures log + ReapEvents(ids, k, at) + [ReapCases(ids[k]), ReapRun(ids[k], at)] == log + ReapEvents(ids, k + 1, at)
  {
  }

  lemma OneMoreItem(log: seq<Event>, attempts: seq<Attempt>, k: nat, run: int, tenant: int)
    requires k < |attempts|
    ensures log + PlanEvents(attempts, k, run, tenant) + AttemptEvents(attempts[k], run, tenant)
            == log + PlanEvents(attempts, k + 1, run, tenant)
  {
    hide AttemptEvents;
  }

  lemma FreshNow(cases: Cases, attempts: seq<Attempt>, k: nat)
    requires k < |attempts| && FreshFrom(cases, attempts, k)
    ensures !attempts[k].Missing? ==> attempts[k].id !in cases
  {
  }

  /** The row of one plan item: RUNNING when it was sent, FAILED with the reason when it could not be. */
  predicate ItemRow(a: Attempt, run: int, tenant: int, cases: Cases) {
    match a
    case Missing => true
    case Sent(id) => id in cases && cases[id] == CaseRow(tenant, run, CaseRunning, 0, "")
    case Unsendable(id, error) => id in cases && cases[id] == CaseRow(tenant, run, CaseFailed, 0, error)
  }

  lemma ItemRowsStay(before: Cases, after: Cases, run: int, tenant: int, attempts: seq<Attempt>, k: nat)
    requires k < |attempts| && (!attempts[k].Missing? ==> attempts[k].id !in before)
    requires after == match attempts[k]
                      case Missing => before
                      case Sent(id) => before[id := CaseRow(tenant, run, CaseRunning, 0, "")]
                      case Unsendable(id, error) => before[id := CaseRow(tenant, run, CaseFailed, 0, error)]
    requires forall j :: 0 <= j < k ==> ItemRow(attempts[j], run, tenant, before)
    ensures forall j :: 0 <= j < k + 1 ==> ItemRow(attempts[j], run, tenant, after)
  {
  }

  lemma OneMoreSent(before: Cases, after: Cases, run: int, tenant: int, attempts: seq<Attempt>, k: nat)
    requires k < |attempts| && (!attempts[k].Missing? ==> attempts[k].id !in before)
    requires after == match attempts[k]
                      case Missing => before
                      case Sent(id) => before[id := CaseRow(tenant, run, CaseRunning, 0, "")]
                      case Unsendable(id, error) => before[id := CaseRow(tenant, run, CaseFailed, 0, error)]
    requires WithStatus(before, run, CaseRunning) == SentIds(attempts, k) && FreshFrom(before, attempts, k)
    ensures WithStatus(after, run, CaseRunning) == SentIds(attempts, k + 1) && FreshFrom(after, attempts, k + 1)
    ensures forall c :: c in before ==> c in after && after[c] == before[c]
    ensures AnySent(attempts, k + 1) <==> AnySent(attempts, k) || attempts[k].Sent?
  {
    var added := if attempts[k].Sent? then {attempts[k].id} else {};
    assert WithStatus(after, run, CaseRunning) == WithStatus(before, run, CaseRunning) + added;
    assert SentIds(attempts, k + 1) == SentIds(attempts, k) + added;
  }

  /** What a result leaves of every row. */
  lemma RowsTakenIn(db: Db, res: TaskResult)
    requires AfterResult(db, res).Success?
    ensures var after := AfterResult(db, res).value;
            && after.cases.Keys == db.cases.Keys
            && (WellReported(res) ==> forall c :: c in after.cases ==> TakenIn(db.cases[c], c, res.cases, after.cases[c]))
            && forall r :: r in db.runs && (r != res.run || db.runs[r].status != Running) ==>
                 r in after.runs && after.runs[r] == db.runs[r]
  {
    var after := AfterResult(db, res).value;
    assert after.cases == AfterReports(db.cases, res.cases, |res.cases|).cases;
    if WellReported(res) {
      forall c | c in after.cases ensures TakenIn(db.cases[c], c, res.cases, after.cases[c]) {
        ResultOnCase(db, res, c);
      }
    }
  }

  lemma EndedOpensNothing(cases: Cases, run: int, status: CaseStatus, error: Option<string>, r: int)
    requires status != CaseRunning && (r != run ==> WithStatus(cases, r, CaseRunning) == {})
    ensures WithStatus(Ended(cases, run, status, error), r, CaseRunning) == {}
  {
    forall c
      ensures c !in WithStatus(Ended(cases, run, status, error), r, CaseRunning)
    {
      assert r != run ==> c !in WithStatus(cases, r, CaseRunning);
    }
  }

  /** What `Limit(200).Pluck("id")` may return: up to 200 of the stale runs, all of them if fewer. */
  ghost predicate StaleList(runs: map<int, RunRow>, cutoff: int, ids: seq<int>) {
    && |ids| <= 200
    && (forall j, k :: 0 <= j < k < |ids| ==> ids[j] != ids[k])
    && (forall k :: 0 <= k < |ids| ==> ids[k] in runs && runs[ids[k]].status == Running && runs[ids[k]].started < cutoff)
    && (|ids| < 200 ==> forall r :: r in runs && runs[r].status == Running && runs[r].started < cutoff ==> r in ids)
  }

  /** The RUNNING cases of the runs have the status, and the error text if there is one; no other row has changed. */
  ghost predicate EndedRows(before: Cases, after: Cases, runs: set<int>, status: CaseStatus, error: Option<string>) {
    && after.Keys == before.Keys
    && forall c :: c in before ==>
         var was := before[c];
         after[c] == if was.run in runs && was.status == CaseRunning
                     then CaseRow(was.tenant, was.run, status, was.durationMs, if error.Some? then error.value else was.error)
                     else was
  }

  class Store {
    var runs: map<int, RunRow>
    var cases: Cases
    var steps: seq<StepRow>
    ghost var log: seq<Event>

    ghost function Now(): Db
      reads this
    {
      Db(runs, cases, steps)
    }

    ghost predicate Valid()
      reads this
    {
      Now() == At(EMPTY, log, |log|)
    }

    constructor ()
      ensures Valid() && log == []
    {
      runs, cases, steps := map[], map[], [];
      log := [];
    }

    ghost method Record(e: Event)
      requires Now() == Next(At(EMPTY, log, |log|), e)
      modifies this`log
      ensures Valid() && log == old(log) + [e]
    {
      AtAppend(EMPTY, log, e);
      log := log + [e];
    }

    /** The transaction of a worker's result, on its own copy of the tables until it commits. */
    method HandleTaskResult(res: TaskResult) returns (e: Option<Error>)
      requires Valid()
      modifies this
      ensures Valid() && log == old(log) + [WorkerResult(res)] && Now() == Next(old(Now()), WorkerResult(res))
      ensures e == match AfterResult(old(Now()), res) case Success(_) => None case Failure(x) => Some(x)
      ensures e.Some? ==> runs == old(runs) && cases == old(cases) && steps == old(steps)
      ensures cases.Keys == old(cases).Keys
      ensures e.None? && WellReported(res) ==> forall c :: c in cases ==> TakenIn(old(cases)[c], c, res.cases, cases[c])
      ensures forall r :: r in old(runs) && (r != res.run || old(runs)[r].status != Running) ==> r in runs && runs[r] == old(runs)[r]
    {
      ghost var before := Now();
      var intake := TakeReports(res.cases);
      if intake.Failure? {
        Record(WorkerResult(res));
        return Some(intake.error);
      }
      var rows := steps;
      var i := intake.value;
      for k := 0 to |res.steps|
        invariant rows == AfterSteps(steps, i, res.steps, k)
      {
        var sr := res.steps[k];
        if sr.caseId in i.accepted {
          rows := rows + [StepRow(i.cases[sr.caseId].tenant, sr.caseId, sr.path, sr.detail)];
        }
      }
      var tx := MaybeFinishRun(Db(runs, i.cases, rows), res.run, res.at);
      match tx {
        case Success(db) =>
          RowsTakenIn(before, res);
          runs, cases, steps := db.runs, db.cases, db.steps;
          e := None;
        case Failure(x) =>
          e := Some(x);
      }
      Record(WorkerResult(res));
    }

    /** The guarded update of every reported case; a bad identifier fails the transaction. */
    method TakeReports(reports: seq<CaseReport>) returns (r: Result<Intake, Error>)
      ensures r == if exists k :: 0 <= k < |reports| && reports[k].id <= 0 then Failure(InvalidCaseId)
                   else Success(AfterReports(cases, reports, |reports|))
    {
      var rows := cases;
      var accepted: set<int> := {};
      for k := 0 to |reports|
        invariant forall j :: 0 <= j < k ==> reports[j].id > 0
        invariant Intake(rows, accepted) == AfterReports(cases, reports, k)
      {
        var cr := reports[k];
        if cr.id <= 0 {
          return Failure(InvalidCaseId);
        }
        if cr.id in rows && rows[cr.id].status == CaseRunning {
          rows := rows[cr.id := rows[cr.id].(status := cr.status, durationMs := cr.durationMs, error := cr.error)];
          accepted := accepted + {cr.id};
        } else {
          accepted := accepted - {cr.id};
        }
      }
      return Success(Intake(rows, accepted));
    }

    static method MaybeFinishRun(tx: Db, run: int, at: int) returns (r: Result<Db, Error>)
      ensures r == MaybeFinished(tx, run, at)
    {
      var total, done := |CasesOf(tx.cases, run)|, |Done(tx.cases, run)|;
      var failed, skipped := |WithStatus(tx.cases, run, CaseFailed)|, |WithStatus(tx.cases, run, CaseSkipped)|;
      if total == 0 || done < total {
        return Success(tx);
      }
      var status := Passed;
      if failed > 0 {
        status := Failed;
      }
      if run !in tx.runs {
        return Failure(RunMissing);
      }
      var summary := Counts(total, total - failed - skipped, failed, skipped, false);
      if tx.runs[run].status != Running {
        return Success(tx);
      }
      return Success(tx.(runs := tx.runs[run :=
        tx.runs[run].(status := status, finished := Some(at), summary := summary)]));
    }

    method CancelRun(run: int, tenant: int, at: int) returns (e: Option<Error>)
      requires Valid()
      modifies this
      ensures Valid() && log == old(log) + [Cancel(run, tenant, at)] && Now() == Next(old(Now()), Cancel(run, tenant, at))
      ensures e == if run in old(runs) && old(runs)[run].tenant == tenant && old(runs)[run].status == Running then None
                   else Some(RunNotFound)
      ensures e.Some? ==> runs == old(runs) && cases == old(cases)
      ensures e.None? ==> run in runs && runs == old(runs)[run := RunRow(tenant, Aborted, old(runs)[run].started, Some(at),
                                                                         runs[run].summary)]
      ensures e.None? ==> EndedRows(old(cases), cases, {run}, CaseSkipped, None)
      ensures steps == old(steps)
    {
      if run !in runs || runs[run].tenant != tenant || runs[run].status != Running {
        Record(Cancel(run, tenant, at));
        return Some(RunNotFound);
      }
      cases := Ended(cases, run, CaseSkipped, None);
      var total, passed := |CasesOf(cases, run)|, |WithStatus(cases, run, CasePassed)|;
      var failed, skipped := |WithStatus(cases, run, CaseFailed)|, |WithStatus(cases, run, CaseSkipped)|;
      runs := runs[run := runs[run].(status := Aborted, finished := Some(at),
                                     summary := Counts(total, passed, failed, skipped, true))];
      Record(Cancel(run, tenant, at));
      return None;
    }

    /** One reaping pass over the runs started before the cutoff, two statements each. */
    method ReapStaleRuns(cutoff: int, at: int, ids: seq<int>)
      requires Valid() && StaleList(runs, cutoff, ids)
      modifies this
      ensures Valid() && log == old(log) + ReapEvents(ids, |ids|, at) && runs.Keys == old(runs).Keys
      ensures forall r :: r in ids ==> WithStatus(cases, r, CaseRunning) == {}
      ensures forall r :: r in ids ==>
        runs[r] == RunRow(old(runs)[r].tenant, Failed, old(runs)[r].started, Some(at), ErrorText("run timed out (reaper)"))
      ensures EndedRows(old(cases), cases, (set r | r in ids), CaseFailed, Some("run reaped: worker unreachable"))
      ensures steps == old(steps)
      ensures forall r :: r in old(runs) && r !in ids ==> runs[r] == old(runs)[r]
      ensures |ids| < 200 ==> forall r :: r in runs && runs[r].status == Running ==> runs[r].started >= cutoff
    {
      hide At, WithStatus, ReapEvents, Next;
      ghost var reaped: set<int> := {};
      NoReapEvents(ids, at);
      for k := 0 to |ids|
        invariant Valid() && log == old(log) + ReapEvents(ids, k, at) && runs.Keys == old(runs).Keys
        invariant forall j :: 0 <= j < |ids| ==> (ids[j] in reaped <==> j < k)
        invariant forall r :: r in reaped ==> r in ids
        invariant forall r :: r in runs && r !in reaped ==> runs[r] == old(runs)[r]
        invariant forall r :: r in reaped ==>
          (r in runs &&
           runs[r] == RunRow(old(runs)[r].tenant, Failed, old(runs)[r].started, Some(at), ErrorText("run timed out (reaper)")))
        invariant EndedRows(old(cases), cases, reaped, CaseFailed, Some("run reaped: worker unreachable"))
        invariant steps == old(steps)
        invariant forall r :: r in reaped ==> WithStatus(cases, r, CaseRunning) == {}
      {
        var id := ids[k];
        ReapOne(id, at);
        reaped := reaped + {id};
        OneMoreReaped(old(log), ids, k, at);
      }
      ghost var listed := set r | r in ids;
      assert forall r :: r in ids ==> r in reaped;
      assert forall r :: r in reaped <==> r in listed;
      assert reaped == listed;
    }

    method ReapOne(id: int, at: int)
      requires Valid() && id in runs && runs[id].status == Running
      modifies this
      ensures Valid() && log == old(log) + [ReapCases(id), ReapRun(id, at)]
      ensures runs.Keys == old(runs).Keys && steps == old(steps)
      ensures runs[id] == RunRow(old(runs)[id].tenant, Failed, old(runs)[id].started, Some(at), ErrorText("run timed out (reaper)"))
      ensures EndedRows(old(cases), cases, {id}, CaseFailed, Some("run reaped: worker unreachable"))
      ensures forall r :: r in runs && r != id ==> runs[r] == old(runs)[r]
      ensures WithStatus(cases, id, CaseRunning) == {}
      ensures forall r :: WithStatus(old(cases), r, CaseRunning) == {} ==> WithStatus(cases, r, CaseRunning) == {}
    {
      cases := Ended(cases, id, CaseFailed, Some("run reaped: worker unreachable"));
      Record(ReapCases(id));
      if runs[id].status == Running {
        runs := runs[id := runs[id].(status := Failed, finished := Some(at), summary := ErrorText("run timed out (reaper)"))];
      }
      Record(ReapRun(id, at));
      forall r | r == id || WithStatus(old(cases), r, CaseRunning) == {}
        ensures WithStatus(cases, r, CaseRunning) == {}
      {
        EndedOpensNothing(old(cases), id, CaseFailed, Some("run reaped: worker unreachable"), r);
      }
    }

    /** Start-up: close what the previous process left open. */
    method RecoverInterruptedRuns(at: int)
      requires Valid()
      modifies this
      ensures Valid() && log == old(log) + [Recover(at)] && Now() == Next(old(Now()), Recover(at))
      ensures runs.Keys == old(runs).Keys && steps == old(steps)
      ensures forall r :: r in runs ==>
        var was := old(runs)[r];
        runs[r] == if was.status != Running then was
                   else RunRow(was.tenant, Failed, was.started, Some(at), ErrorText("interrupted by scheduler restart"))
      ensures EndedRows(old(cases), cases, (set c | c in old(cases) :: old(cases)[c].run), CaseFailed,
                        Some("interrupted by scheduler restart"))
    {
      runs := map r | r in runs :: if runs[r].status == Running
        then runs[r].(status := Failed, finished := Some(at), summary := ErrorText("interrupted by scheduler restart"))
        else runs[r];
      cases := map c | c in cases :: if cases[c].status == CaseRunning
        then cases[c].(status := CaseFailed, error := "interrupted by scheduler restart")
        else cases[c];
      Record(Recover(at));
    }

    /** Prepares and sends one case; 1 when it was sent. */
    method DispatchCase(run: int, tenant: int, a: Attempt) returns (n: nat)
      requires Valid() && (!a.Missing? ==> a.id !in cases)
      modifies this
      ensures Valid() && log == old(log) + AttemptEvents(a, run, tenant) && runs == old(runs) && steps == old(steps)
      ensures n == if a.Sent? then 1 else 0
      ensures cases == match a
                       case Missing => old(cases)
                       case Sent(id) => old(cases)[id := CaseRow(tenant, run, CaseRunning, 0, "")]
                       case Unsendable(id, error) => old(cases)[id := CaseRow(tenant, run, CaseFailed, 0, error)]
    {
      if a.Missing? {
        return 0;
      }
      cases := cases[a.id := CaseRow(tenant, run, CaseRunning, 0, "")];
      Record(CreateCase(a.id, run, tenant));
      if a.Unsendable? {
        cases := cases[a.id := cases[a.id].(status := CaseFailed, error := a.error)];
        Record(CaseFailure(a.id, a.error));
        return 0;
      }
      return 1;
    }

    /** The loop over a plan's items. */
    method DispatchItems(run: int, tenant: int, attempts: seq<Attempt>) returns (dispatched: nat)
      requires Valid() && WithStatus(cases, run, CaseRunning) == {} && FreshFrom(cases, attempts, 0)
      modifies this
      ensures Valid() && log == old(log) + PlanEvents(attempts, |attempts|, run, tenant) && runs == old(runs)
      ensures dispatched > 0 <==> AnySent(attempts, |attempts|)
      ensures WithStatus(cases, run, CaseRunning) == SentIds(attempts, |attempts|)
      ensures forall c :: c in old(cases) ==> c in cases && cases[c] == old(cases)[c]
      ensures forall j :: 0 <= j < |attempts| ==> ItemRow(attempts[j], run, tenant, cases)
    {
      dispatched := 0;
      assert !AnySent(attempts, 0);
      assert SentIds(attempts, 0) == {};
      assert log == old(log) + PlanEvents(attempts, 0, run, tenant);
      hide WithStatus, SentIds, At, PlanEvents, AttemptEvents, Next, FreshFrom, AnySent, ItemRow;
      for k := 0 to |attempts|
        invariant Valid() && log == old(log) + PlanEvents(attempts, k, run, tenant) && runs == old(runs)
        invariant dispatched > 0 <==> AnySent(attempts, k)
        invariant forall c :: c in old(cases) ==> c in cases && cases[c] == old(cases)[c]
        invariant FreshFrom(cases, attempts, k)
        invariant forall j :: 0 <= j < k ==> ItemRow(attempts[j], run, tenant, cases)
        invariant WithStatus(cases, run, CaseRunning) == SentIds(attempts, k)
      {
        ghost var before := cases;
        FreshNow(before, attempts, k);
        var n := DispatchCase(run, tenant, attempts[k]);
        dispatched := dispatched + n;
        OneMoreSent(before, cases, run, tenant, attempts, k);
        OneMoreItem(old(log), attempts, k, run, tenant);
        ItemRowsStay(before, cases, run, tenant, attempts, k);
      }
    }

    /**
     * Triggering a plan, when nothing else touches the tables before its loop ends: the run is left
     * waiting for exactly the cases that were sent, or failed when there are none.
     */
    method Trigger(run: int, tenant: int, started: int, at: int, attempts: seq<Attempt>) returns (ok: bool)
      requires Valid() && run !in runs && CasesOf(cases, run) == {} && FreshFrom(cases, attempts, 0)
      modifies this
      ensures Valid() && run in runs
      ensures log == old(log) + [CreateRun(run, tenant, started)] + PlanEvents(attempts, |attempts|, run, tenant)
                     + if ok then [] else [NoneDispatched(run, at)]
      ensures ok <==> AnySent(attempts, |attempts|)
      ensures runs[run] == if ok then RunRow(tenant, Running, started, None, NoSummary)
                           else RunRow(tenant, Failed, started, Some(at), Counts(0, 0, 0, 0, false))
      ensures forall j :: 0 <= j < |attempts| ==> ItemRow(attempts[j], run, tenant, cases)
      ensures WithStatus(cases, run, CaseRunning) == SentIds(attempts, |attempts|)
      ensures forall r :: r in old(runs) ==> r in runs && runs[r] == old(runs)[r]
      ensures forall c :: c in old(cases) ==> c in cases && cases[c] == old(cases)[c]
    {
      runs := runs[run := RunRow(tenant, Running, started, None, NoSummary)];
      Record(CreateRun(run, tenant, started));
      assert forall c :: c in cases && cases[c].run == run ==> c in CasesOf(cases, run);
      assert WithStatus(cases, run, CaseRunning) == {};
      hide WithStatus, SentIds, CasesOf, PlanEvents, At;
      var dispatched := DispatchItems(run, tenant, attempts);
      if dispatched == 0 {
        runs := runs[run := runs[run].(status := Failed, finished := Some(at), summary := NOTHING_DISPATCHED)];
        Record(NoneDispatched(run, at));
        return false;
      }
      return true;
    }
  }
}
