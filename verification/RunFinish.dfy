/** When runs finish, what their summaries say, and when a run is left hanging. */
module RunFinish {
  import opened Prelude
  import opened RunLifecycle
  import opened RunTheorems

  // ---- Counting ----

  function Tally(cases: Cases, run: int, cancelled: bool): Summary {
    Counts(|CasesOf(cases, run)|, |WithStatus(cases, run, CasePassed)|, |WithStatus(cases, run, CaseFailed)|,
           |WithStatus(cases, run, CaseSkipped)|, cancelled)
  }

  lemma CountsAddUp(cases: Cases, run: int)
    ensures |Done(cases, run)| == |WithStatus(cases, run, CasePassed)| + |WithStatus(cases, run, CaseFailed)|
                                  + |WithStatus(cases, run, CaseSkipped)|
  {
    var p, f := WithStatus(cases, run, CasePassed), WithStatus(cases, run, CaseFailed);
    var s := WithStatus(cases, run, CaseSkipped);
    assert Done(cases, run) == (p + f) + s;
    assert p !! f && (p + f) !! s;
  }

  /** The counters of a summary add up exactly when every case ended in one of the three outcomes. */
  lemma TallySum(cases: Cases, run: int, cancelled: bool)
    ensures var t := Tally(cases, run, cancelled);
            t.total == t.passed + t.failed + t.skipped <==> Done(cases, run) == CasesOf(cases, run)
  {
    CountsAddUp(cases, run);
    DoneWithinCases(cases, run);
  }

  // ---- What finishing means ----

  /**
   * A worker result closes exactly the run it answers for, only once all of that run's cases have
   * ended, and with the true counts; the run fails iff some case failed.
   */
  lemma FinishedByResult(db: Db, res: TaskResult, r: int)
    requires r in db.runs && db.runs[r].status == Running
    requires AfterResult(db, res).Success? && AfterResult(db, res).value.runs[r].status != Running
    ensures var after := AfterResult(db, res).value;
            && r == res.run
            && CasesOf(after.cases, r) != {} && Done(after.cases, r) == CasesOf(after.cases, r)
            && after.runs[r] == RunRow(db.runs[r].tenant, after.runs[r].status, db.runs[r].started, Some(res.at),
                                       Tally(after.cases, r, false))
            && (after.runs[r].status == Failed <==> exists c :: c in CasesOf(after.cases, r) && after.cases[c].status == CaseFailed)
            && (after.runs[r].status != Failed ==> after.runs[r].status == Passed)
  {
    var cases := AfterReports(db.cases, res.cases, |res.cases|).cases;
    DoneWithinCases(cases, r);
    CountsAddUp(cases, r);
    var failed := WithStatus(cases, r, CaseFailed);
    assert forall c :: c in failed ==> c in CasesOf(cases, r) && cases[c].status == CaseFailed;
    if forall c :: c in CasesOf(cases, r) ==> cases[c].status != CaseFailed {
      assert failed == {};
    }
    assert forall c :: c in CasesOf(cases, r) && cases[c].status == CaseFailed ==> c in failed;
  }

  /** Conversely a run does not outlive its last RUNNING case. */
  lemma ResultCloses(db: Db, res: TaskResult)
    requires AfterResult(db, res).Success? && res.run in db.runs
    requires var after := AfterResult(db, res).value;
             CasesOf(after.cases, res.run) != {} && Done(after.cases, res.run) == CasesOf(after.cases, res.run)
    ensures AfterResult(db, res).value.runs[res.run].status != Running
  {
    var cases := AfterReports(db.cases, res.cases, |res.cases|).cases;
    assert AfterResult(db, res).value.cases == cases;
  }

  /** The summary of a trigger that dispatched nothing is true exactly when it created no case row at all. */
  lemma NoneDispatchedSummary(db: Db, r: int, at: int)
    requires r in db.runs
    ensures AfterNoneDispatched(db, r, at).runs[r].summary == Tally(db.cases, r, false) <==> CasesOf(db.cases, r) == {}
  {
    if CasesOf(db.cases, r) == {} {
      forall s ensures WithStatus(db.cases, r, s) == {} {
        assert WithStatus(db.cases, r, s) <= CasesOf(db.cases, r);
      }
    }
  }

  lemma EndedKeepsOthers(cases: Cases, run: int, status: CaseStatus, error: Option<string>, r: int, s: CaseStatus)
    requires status != CaseRunning
    ensures CasesOf(Ended(cases, run, status, error), r) == CasesOf(cases, r)
    ensures r != run ==> WithStatus(Ended(cases, run, status, error), r, s) == WithStatus(cases, r, s)
    ensures WithStatus(Ended(cases, run, status, error), run, CaseRunning) == {}
    ensures s !in {status, CaseRunning} ==>
              WithStatus(Ended(cases, run, status, error), run, s) == WithStatus(cases, run, s)
    ensures WithStatus(Ended(cases, run, status, error), run, status) ==
            WithStatus(cases, run, status) + WithStatus(cases, run, CaseRunning)
  {
  }

  /** Cancelling turns the open cases into skipped ones and closes the run with the true counts. */
  lemma CancelCloses(db: Db, run: int, tenant: int, at: int)
    requires Cancellable(db, run, tenant)
    ensures var after := AfterCancel(db, run, tenant, at);
            && after.runs[run].status == Aborted && after.runs[run].finished == Some(at) && after.runs[run].summary == Tally(after.cases, run, true)
            && WithStatus(after.cases, run, CaseRunning) == {}
            && WithStatus(after.cases, run, CaseSkipped)
               == WithStatus(db.cases, run, CaseSkipped) + WithStatus(db.cases, run, CaseRunning)
            && WithStatus(after.cases, run, CasePassed) == WithStatus(db.cases, run, CasePassed)
            && WithStatus(after.cases, run, CaseFailed) == WithStatus(db.cases, run, CaseFailed)
            && (Done(after.cases, run) == CasesOf(after.cases, run) <==>
                  forall c :: c in CasesOf(db.cases, run) ==> !db.cases[c].status.Other?)
  {
    EndedKeepsOthers(db.cases, run, CaseSkipped, None, run, CasePassed);
    EndedKeepsOthers(db.cases, run, CaseSkipped, None, run, CaseFailed);
    var cases := Ended(db.cases, run, CaseSkipped, None);
    assert CasesOf(cases, run) == CasesOf(db.cases, run);
    forall c | c in CasesOf(db.cases, run)
      ensures c in Done(cases, run) <==> !db.cases[c].status.Other?
    {
      assert cases[c].status == if db.cases[c].status == CaseRunning then CaseSkipped else db.cases[c].status;
    }
    if forall c :: c in CasesOf(db.cases, run) ==> !db.cases[c].status.Other? {
      assert Done(cases, run) == CasesOf(cases, run);
    } else {
      var c :| c in CasesOf(db.cases, run) && db.cases[c].status.Other?;
      assert c !in Done(cases, run) && c in CasesOf(cases, run);
    }
  }

  // ---- A summary, once written, stays true ----

  ghost predicate Settled(db: Db, r: int, cancelled: bool) {
    && r in db.runs && db.runs[r].status != Running
    && WithStatus(db.cases, r, CaseRunning) == {}
    && db.runs[r].summary == Tally(db.cases, r, cancelled)
  }

  /** Events that give a finished run new cases, or rewrite its rows by primary key. */
  predicate Disturbs(db: Db, e: Event, r: int) {
    || (e.CreateCase? && e.run == r)
    || (e.CaseFailure? && e.id in db.cases && db.cases[e.id].run == r)
    || (e.NoneDispatched? && e.run == r)
  }

  lemma SameCasesSameTally(a: Cases, b: Cases, r: int)
    requires forall c :: c in a && a[c].run == r ==> c in b && b[c] == a[c]
    requires forall c :: c in b && b[c].run == r ==> c in a && a[c].run == r
    ensures forall s :: WithStatus(a, r, s) == WithStatus(b, r, s)
    ensures CasesOf(a, r) == CasesOf(b, r)
  {
    forall c
      ensures c in CasesOf(a, r) <==> c in CasesOf(b, r)
    {
    }
    forall s
      ensures WithStatus(a, r, s) == WithStatus(b, r, s)
    {
      forall c
        ensures c in WithStatus(a, r, s) <==> c in WithStatus(b, r, s)
      {
        assert c in CasesOf(a, r) <==> c in CasesOf(b, r);
      }
    }
  }

  /** A later event leaves a settled run's cases alone, row by row. */
  lemma SettledCases(db: Db, e: Event, r: int)
    requires Fresh(db, e) && WithStatus(db.cases, r, CaseRunning) == {} && !Disturbs(db, e, r)
    ensures forall c :: c in db.cases && db.cases[c].run == r ==> c in Next(db, e).cases && Next(db, e).cases[c] == db.cases[c]
    ensures forall c :: c in Next(db, e).cases && Next(db, e).cases[c].run == r ==> c in db.cases && db.cases[c].run == r
  {
    forall c | c in db.cases && db.cases[c].run == r
      ensures c in Next(db, e).cases && Next(db, e).cases[c] == db.cases[c]
    {
      assert c !in WithStatus(db.cases, r, CaseRunning);
      FinishedCaseFinal(db, e, c);
    }
    forall c | c in Next(db, e).cases && Next(db, e).cases[c].run == r
      ensures c in db.cases && db.cases[c].run == r
    {
      if e.WorkerResult? && c in db.cases {
        ReportsKeepTenantAndRun(db.cases, e.result.cases, |e.result.cases|, c);
      }
    }
  }

  lemma SettledStays(db: Db, e: Event, r: int, cancelled: bool)
    requires Fresh(db, e) && Settled(db, r, cancelled) && !Disturbs(db, e, r)
    ensures Settled(Next(db, e), r, cancelled) && Next(db, e).runs[r] == db.runs[r]
  {
    SettledCases(db, e, r);
    FinishedRunFinal(db, e, r);
    hide Next;
    SameCasesSameTally(db.cases, Next(db, e).cases, r);
  }

  /** The events after which the summary of a settled run no longer tells the truth. */
  ghost predicate Spoils(db: Db, e: Event, r: int, cancelled: bool) {
    || (e.CreateCase? && e.run == r)
    || (e.CaseFailure? && e.id in db.cases && db.cases[e.id].run == r && db.cases[e.id].status != CaseFailed)
    || (e.NoneDispatched? && e.run == r && (cancelled || CasesOf(db.cases, r) != {}))
  }

  lemma {:induction false} SettledExactly(db: Db, e: Event, r: int, cancelled: bool)
    requires Fresh(db, e) && Settled(db, r, cancelled)
    ensures Settled(Next(db, e), r, cancelled) <==> !Spoils(db, e, r, cancelled)
  {
    if !Disturbs(db, e, r) {
      SettledStays(db, e, r, cancelled);
    } else if e.CreateCase? {
      assert e.id in WithStatus(Next(db, e).cases, r, CaseRunning);
    } else if e.NoneDispatched? {
      NoneDispatchedSummary(db, r, e.at);
    } else {
      FailureSpoils(db, e.id, e.error, r, cancelled);
    }
  }

  lemma FailureSpoils(db: Db, id: int, error: string, r: int, cancelled: bool)
    requires Settled(db, r, cancelled) && id in db.cases && db.cases[id].run == r
    ensures Settled(AfterCaseFailure(db, id, error), r, cancelled) <==> db.cases[id].status == CaseFailed
  {
    var after := AfterCaseFailure(db, id, error).cases;
    assert CasesOf(after, r) == CasesOf(db.cases, r);
    assert id !in WithStatus(db.cases, r, CaseRunning);
    assert WithStatus(after, r, CaseRunning) == {};
    assert WithStatus(after, r, CaseFailed) == WithStatus(db.cases, r, CaseFailed) + {id};
    if db.cases[id].status == CaseFailed {
      assert WithStatus(after, r, CaseFailed) == WithStatus(db.cases, r, CaseFailed);
      assert WithStatus(after, r, CasePassed) == WithStatus(db.cases, r, CasePassed);
      assert WithStatus(after, r, CaseSkipped) == WithStatus(db.cases, r, CaseSkipped);
    }
  }

  /**
   * From the moment a run is finished its summary tells the truth about its cases, over any run
   * without those events; and its row is the same row while nothing rewrites it.
   */
  lemma {:induction false} SummaryStaysTrue(db: Db, es: seq<Event>, i: nat, j: nat, r: int, cancelled: bool)
    requires i <= j <= |es| && FreshRun(db, es) && Settled(At(db, es, i), r, cancelled)
    requires forall k :: i <= k < j ==> !Spoils(At(db, es, k), es[k], r, cancelled)
    ensures Settled(At(db, es, j), r, cancelled)
    ensures (forall k :: i <= k < j && r in At(db, es, k).runs ==> !OverwritesRun(At(db, es, k), es[k], r)) ==>
              At(db, es, j).runs[r] == At(db, es, i).runs[r]
    decreases j - i
  {
    hide Next, Spoils;
    if i < j {
      SummaryStaysTrue(db, es, i, j - 1, r, cancelled);
      SettledExactly(At(db, es, j - 1), es[j - 1], r, cancelled);
    }
    if forall k :: i <= k < j && r in At(db, es, k).runs ==> !OverwritesRun(At(db, es, k), es[k], r) {
      FinishedRunStays(db, es, i, j, r);
    }
  }

  // ---- Stalls ----

  /** The run waits for results that nobody owes it. */
  ghost predicate Stalled(db: Db, r: int) {
    && r in db.runs && db.runs[r].status == Running
    && CasesOf(db.cases, r) != {} && WithStatus(db.cases, r, CaseRunning) == {}
  }

  /** The status a result leaves a RUNNING case with: that of its first report other than RUNNING. */
  function Verdict(reports: seq<CaseReport>, n: nat, c: int): CaseStatus
    requires n <= |reports|
  {
    if n == 0 then CaseRunning
    else
      var before := Verdict(reports, n - 1, c);
      if before != CaseRunning then before
      else if reports[n - 1].id == c then reports[n - 1].status
      else CaseRunning
  }

  lemma {:induction false} ReportsDecide(cases: Cases, reports: seq<CaseReport>, n: nat, c: int)
    requires n <= |reports| && c in cases
    ensures AfterReports(cases, reports, n).cases[c].status ==
            if cases[c].status == CaseRunning then Verdict(reports, n, c) else cases[c].status
  {
    if n > 0 {
      ReportsDecide(cases, reports, n - 1, c);
    }
  }

  /** How a case stands once the result has been taken in. */
  function Standing(db: Db, res: TaskResult, c: int): CaseStatus
    requires c in db.cases
  {
    if db.cases[c].status == CaseRunning then Verdict(res.cases, |res.cases|, c) else db.cases[c].status
  }

  /** Every identifier is positive, and the run answered for is there once its cases have all ended. */
  ghost predicate Acceptable(db: Db, res: TaskResult) {
    && (forall k :: 0 <= k < |res.cases| ==> res.cases[k].id > 0)
    && (|| res.run in db.runs
        || CasesOf(db.cases, res.run) == {}
        || exists c :: c in CasesOf(db.cases, res.run) && Standing(db, res, c) !in {CasePassed, CaseFailed, CaseSkipped})
  }

  lemma AcceptedExactly(db: Db, res: TaskResult)
    ensures AfterResult(db, res).Success? <==> Acceptable(db, res)
  {
    if forall k :: 0 <= k < |res.cases| ==> res.cases[k].id > 0 {
      var run, cases := res.run, AfterReports(db.cases, res.cases, |res.cases|).cases;
      ReportsStand(db, res, run);
      DoneWithinCases(cases, run);
      assert Done(cases, run) == CasesOf(cases, run) <==>
             !exists c :: c in CasesOf(db.cases, run) && Standing(db, res, c) !in {CasePassed, CaseFailed, CaseSkipped}
      by {
        if c :| c in CasesOf(db.cases, run) && Standing(db, res, c) !in {CasePassed, CaseFailed, CaseSkipped} {
          assert c in CasesOf(cases, run) && c !in Done(cases, run);
        } else {
          forall c | c in CasesOf(cases, run) ensures c in Done(cases, run) {
            assert c in CasesOf(db.cases, run);
          }
        }
      }
    }
  }

  /**
   * A result is taken in, ends the last RUNNING case of `r` and cannot close it: it answers for
   * another run, or some case of `r` has a status that is none of the three outcomes.
   */
  ghost predicate EndsWithoutClosing(db: Db, res: TaskResult, r: int) {
    && Acceptable(db, res) && CasesOf(db.cases, r) != {}
    && (forall c :: c in CasesOf(db.cases, r) ==> Standing(db, res, c) != CaseRunning)
    && (res.run == r ==> exists c :: c in CasesOf(db.cases, r) && Standing(db, res, c).Other?)
  }

  lemma ReportsStand(db: Db, res: TaskResult, r: int)
    ensures var after := AfterReports(db.cases, res.cases, |res.cases|).cases;
            && CasesOf(after, r) == CasesOf(db.cases, r)
            && forall c :: c in CasesOf(db.cases, r) ==> after[c].status == Standing(db, res, c)
  {
    var n := |res.cases|;
    var after := AfterReports(db.cases, res.cases, n).cases;
    forall c | c in db.cases
      ensures after[c].run == db.cases[c].run && after[c].status == Standing(db, res, c)
    {
      ReportsKeepTenantAndRun(db.cases, res.cases, n, c);
      ReportsDecide(db.cases, res.cases, n, c);
    }
    assert after.Keys == db.cases.Keys;
    forall c ensures c in CasesOf(after, r) <==> c in CasesOf(db.cases, r) {
    }
  }

  /** When the run the result answers for stays open although none of its cases is RUNNING. */
  lemma OwnRunStays(db: Db, res: TaskResult, r: int)
    requires AfterResult(db, res).Success? && r in db.runs && db.runs[r].status == Running && res.run == r
    ensures var after := AfterResult(db, res).value;
            r in after.runs &&
            (after.runs[r].status == Running <==>
             CasesOf(after.cases, r) == {} || exists c :: c in CasesOf(after.cases, r) && c !in Done(after.cases, r))
  {
    var cases := AfterReports(db.cases, res.cases, |res.cases|).cases;
    DoneWithinCases(cases, r);
    if forall c :: c in CasesOf(cases, r) ==> c in Done(cases, r) {
      assert Done(cases, r) == CasesOf(cases, r);
    }
  }

  lemma OpenMeansStanding(db: Db, res: TaskResult, r: int, after: Cases)
    requires CasesOf(after, r) == CasesOf(db.cases, r)
    requires forall c :: c in CasesOf(db.cases, r) ==> c in after && after[c].status == Standing(db, res, c)
    ensures WithStatus(after, r, CaseRunning) == {} <==>
            forall c :: c in CasesOf(db.cases, r) ==> Standing(db, res, c) != CaseRunning
  {
    if forall c :: c in CasesOf(db.cases, r) ==> Standing(db, res, c) != CaseRunning {
      forall c ensures c !in WithStatus(after, r, CaseRunning) {
        assert c in CasesOf(after, r) <==> c in CasesOf(db.cases, r);
      }
    } else {
      var c :| c in CasesOf(db.cases, r) && Standing(db, res, c) == CaseRunning;
      assert c in CasesOf(after, r) && c in WithStatus(after, r, CaseRunning);
    }
  }

  lemma ResultStalls(db: Db, res: TaskResult, r: int)
    requires r in db.runs && db.runs[r].status == Running && !Stalled(db, r)
    ensures Stalled(Next(db, WorkerResult(res)), r) <==> EndsWithoutClosing(db, res, r)
  {
    AcceptedExactly(db, res);
    if AfterResult(db, res).Success? {
      var after := AfterResult(db, res).value;
      ReportsStand(db, res, r);
      OpenMeansStanding(db, res, r, after.cases);
      if res.run == r {
        OwnRunStays(db, res, r);
        forall c | c in CasesOf(after.cases, r) && after.cases[c].status != CaseRunning
          ensures c !in Done(after.cases, r) <==> after.cases[c].status.Other?
        {
        }
      } else {
        assert after.runs[r] == db.runs[r];
      }
    }
  }

  /**
   * The events that leave a run hanging: a local dispatch failure that ends its last RUNNING case, the
   * first half of a reaping, and a result that ends its last RUNNING case without closing it.
   */
  ghost predicate Strands(db: Db, e: Event, r: int) {
    && r in db.runs && db.runs[r].status == Running
    && (|| (e.CaseFailure? && e.id in db.cases && db.cases[e.id].run == r
            && WithStatus(db.cases, r, CaseRunning) <= {e.id})
        || (e.ReapCases? && e.run == r && CasesOf(db.cases, r) != {})
        || (e.WorkerResult? && EndsWithoutClosing(db, e.result, r)))
  }

  /** The run row is created when its cases are already there and have ended. */
  ghost predicate CreatedLate(db: Db, e: Event, r: int) {
    e.CreateRun? && e.run == r && CasesOf(db.cases, r) != {} && WithStatus(db.cases, r, CaseRunning) == {}
  }

  lemma StallsExactly(db: Db, e: Event, r: int)
    requires Fresh(db, e) && !Stalled(db, r)
    ensures Stalled(Next(db, e), r) <==> Strands(db, e, r) || CreatedLate(db, e, r)
  {
    match e
    case CreateRun(run, _, _) =>
    case CreateCase(id, run, _) =>
      assert run == r ==> id in WithStatus(Next(db, e).cases, r, CaseRunning);
      assert run != r ==> CasesOf(Next(db, e).cases, r) == CasesOf(db.cases, r)
                          && WithStatus(Next(db, e).cases, r, CaseRunning) == WithStatus(db.cases, r, CaseRunning);
    case CaseFailure(id, error) => CaseFailureStalls(db, id, error, r);
    case NoneDispatched(run, at) =>
    case WorkerResult(res) =>
      if r in db.runs && db.runs[r].status == Running {
        ResultStalls(db, res, r);
      }
    case Cancel(run, tenant, at) => EndedKeepsOthers(db.cases, run, CaseSkipped, None, r, CaseRunning);
    case ReapCases(run) =>
      EndedKeepsOthers(db.cases, run, CaseFailed, Some("run reaped: worker unreachable"), r, CaseRunning);
    case ReapRun(run, at) =>
    case Recover(at) =>
  }

  lemma CaseFailureStalls(db: Db, id: int, error: string, r: int)
    requires !Stalled(db, r)
    ensures Stalled(AfterCaseFailure(db, id, error), r) <==> Strands(db, CaseFailure(id, error), r)
  {
    var after := AfterCaseFailure(db, id, error);
    assert CasesOf(after.cases, r) == CasesOf(db.cases, r);
    var open := WithStatus(db.cases, r, CaseRunning);
    assert WithStatus(after.cases, r, CaseRunning) == open - {id};
    assert id in db.cases && db.cases[id].run == r ==> id in CasesOf(db.cases, r);
    if open != {} && open <= {id} {
      var c :| c in open;
      assert c == id;
    }
  }

  /** A trigger creates its run row first and its case rows for that run. */
  predicate ForKnownRun(db: Db, e: Event) {
    e.CreateCase? ==> e.run in db.runs
  }

  ghost predicate Owned(db: Db) {
    forall c :: c in db.cases ==> db.cases[c].run in db.runs
  }

  lemma OwnedStays(db: Db, e: Event)
    requires Owned(db) && ForKnownRun(db, e)
    ensures Owned(Next(db, e)) && db.runs.Keys <= Next(db, e).runs.Keys
  {
    if e.WorkerResult? {
      forall c | c in db.cases
        ensures AfterReports(db.cases, e.result.cases, |e.result.cases|).cases[c].run == db.cases[c].run
      {
        ReportsKeepTenantAndRun(db.cases, e.result.cases, |e.result.cases|, c);
      }
    }
  }

  /** So there are three kinds, and no fourth. */
  lemma OwnedNotLate(db: Db, e: Event, r: int)
    requires Owned(db) && Fresh(db, e)
    ensures !CreatedLate(db, e, r)
  {
    if e.CreateRun? && e.run == r {
      assert forall c :: c in db.cases ==> db.cases[c].run != r;
      assert CasesOf(db.cases, r) == {};
    }
  }

  lemma {:induction false} AlwaysOwned(db: Db, es: seq<Event>, n: nat)
    requires n <= |es| && Owned(db)
    requires forall k :: 0 <= k < |es| ==> ForKnownRun(At(db, es, k), es[k])
    ensures Owned(At(db, es, n))
  {
    hide Next;
    if n > 0 {
      AlwaysOwned(db, es, n - 1);
      OwnedStays(At(db, es, n - 1), es[n - 1]);
    }
  }

  /** Over any run, a RUNNING run with cases has a RUNNING case unless one of those events left it hanging. */
  lemma {:induction false} NeverStalls(db: Db, es: seq<Event>, i: nat, j: nat, r: int)
    requires i <= j <= |es| && FreshRun(db, es) && !Stalled(At(db, es, i), r)
    requires forall k :: i <= k < j ==> !Strands(At(db, es, k), es[k], r) && !CreatedLate(At(db, es, k), es[k], r)
    ensures !Stalled(At(db, es, j), r)
    decreases j - i
  {
    hide Next, Strands, CreatedLate, Stalled;
    if i < j {
      NeverStalls(db, es, i, j - 1, r);
      StallsExactly(At(db, es, j - 1), es[j - 1], r);
    }
  }

  lemma NothingStalled(r: int)
    ensures !Stalled(EMPTY, r)
  {
  }

  /** From empty tables, with cases created for existing runs, a stall shows one of the three kinds. */
  lemma OnlyThreeKinds(es: seq<Event>, n: nat, r: int)
    requires n <= |es| && FreshRun(EMPTY, es) && Stalled(At(EMPTY, es, n), r)
    requires forall k :: 0 <= k < |es| ==> ForKnownRun(At(EMPTY, es, k), es[k])
    ensures exists k :: 0 <= k < n && Strands(At(EMPTY, es, k), es[k], r)
  {
    hide Next, Strands, CreatedLate, Stalled;
    if forall k :: 0 <= k < n ==> !Strands(At(EMPTY, es, k), es[k], r) {
      forall k | 0 <= k < n
        ensures !CreatedLate(At(EMPTY, es, k), es[k], r)
      {
        AlwaysOwned(EMPTY, es, k);
        OwnedNotLate(At(EMPTY, es, k), es[k], r);
      }
      NothingStalled(r);
      NeverStalls(EMPTY, es, 0, n, r);
    }
  }

  /** The second half of a reaping ends what the first half left hanging. */
  lemma ReapingCompletes(db: Db, r: int, at: int)
    requires r in db.runs
    ensures AfterReapRun(AfterReapCases(db, r), r, at).runs[r].status != Running
    ensures WithStatus(AfterReapRun(AfterReapCases(db, r), r, at).cases, r, CaseRunning) == {}
  {
    EndedKeepsOthers(db.cases, r, CaseFailed, Some("run reaped: worker unreachable"), r, CaseRunning);
  }

  // ---- How each of them is reached from empty tables ----

  /** The last case fails to be sent after the others reported. */
  lemma StalledByLocalFailure(run: int, tenant: int, started: int, at: int, c: int, d: int, error: string)
    requires 0 < c && c != d
    ensures var es := [CreateRun(run, tenant, started), CreateCase(c, run, tenant), CreateCase(d, run, tenant),
                       WorkerResult(TaskResult(run, [CaseReport(c, CasePassed, 0, "")], [], at)), CaseFailure(d, error)];
            FreshRun(EMPTY, es) && Stalled(At(EMPTY, es, 5), run)
  {
    var result := TaskResult(run, [CaseReport(c, CasePassed, 0, "")], [], at);
    var es := [CreateRun(run, tenant, started), CreateCase(c, run, tenant), CreateCase(d, run, tenant),
               WorkerResult(result), CaseFailure(d, error)];
    var d3 := Db(map[run := RunRow(tenant, Running, started, None, NoSummary)],
                 map[c := CaseRow(tenant, run, CaseRunning, 0, ""), d := CaseRow(tenant, run, CaseRunning, 0, "")], []);
    ThreeCreated(run, tenant, started, c, d, es);
    var d4 := d3.(cases := d3.cases[c := CaseRow(tenant, run, CasePassed, 0, "")]);
    OneReport(d3, run, c, CasePassed, at);
    OpenRunNotFinished(d4, d, at);
    assert At(EMPTY, es, 4) == d4;
    assert At(EMPTY, es, 5) == AfterCaseFailure(d4, d, error);
    assert c in CasesOf(At(EMPTY, es, 5).cases, run);
  }

  lemma ThreeCreated(run: int, tenant: int, started: int, c: int, d: int, es: seq<Event>)
    requires c != d && |es| >= 3
    requires es[0] == CreateRun(run, tenant, started) && es[1] == CreateCase(c, run, tenant) && es[2] == CreateCase(d, run, tenant)
    ensures At(EMPTY, es, 3) == Db(map[run := RunRow(tenant, Running, started, None, NoSummary)],
              map[c := CaseRow(tenant, run, CaseRunning, 0, ""), d := CaseRow(tenant, run, CaseRunning, 0, "")], [])
    ensures Fresh(At(EMPTY, es, 0), es[0]) && Fresh(At(EMPTY, es, 1), es[1]) && Fresh(At(EMPTY, es, 2), es[2])
  {
    assert At(EMPTY, es, 0) == EMPTY;
    assert At(EMPTY, es, 1) == Next(EMPTY, es[0]);
    assert At(EMPTY, es, 2) == Next(At(EMPTY, es, 1), es[1]);
  }

  /** Taking in a single report. */
  lemma OneReport(db: Db, run: int, c: int, status: CaseStatus, at: int)
    requires c > 0 && c in db.cases && db.cases[c].status == CaseRunning
    ensures var res := TaskResult(run, [CaseReport(c, status, 0, "")], [], at);
            AfterResult(db, res) == MaybeFinished(
              db.(cases := db.cases[c := db.cases[c].(status := status, durationMs := 0, error := "")]), run, at)
  {
    var report := CaseReport(c, status, 0, "");
    var res := TaskResult(run, [report], [], at);
    assert AfterReports(db.cases, res.cases, 0) == Intake(db.cases, {});
    assert AfterReports(db.cases, res.cases, 1).cases == Reported(db.cases, report);
    assert AfterSteps(db.steps, AfterReports(db.cases, res.cases, 1), res.steps, 0) == db.steps;
  }

  /** A worker reports a status that is none of the four, as a message without a status field does. */
  lemma StalledByUnknownStatus(run: int, tenant: int, started: int, at: int, c: int, code: int)
    requires 0 < c
    ensures var res := TaskResult(run, [CaseReport(c, Other(code), 0, "")], [], at);
            var es := [CreateRun(run, tenant, started), CreateCase(c, run, tenant), WorkerResult(res)];
            FreshRun(EMPTY, es) && !Stalled(At(EMPTY, es, 2), run) && Stalled(At(EMPTY, es, 3), run)
  {
    var res := TaskResult(run, [CaseReport(c, Other(code), 0, "")], [], at);
    var es := [CreateRun(run, tenant, started), CreateCase(c, run, tenant), WorkerResult(res)];
    assert At(EMPTY, es, 0) == EMPTY;
    assert At(EMPTY, es, 1) == Next(EMPTY, es[0]);
    var d2 := At(EMPTY, es, 2);
    assert d2 == Next(At(EMPTY, es, 1), es[1]);
    assert c in WithStatus(d2.cases, run, CaseRunning);
    OneReport(d2, run, c, Other(code), at);
    var d3 := d2.(cases := d2.cases[c := d2.cases[c].(status := Other(code), durationMs := 0, error := "")]);
    assert c in CasesOf(d3.cases, run) && c !in Done(d3.cases, run);
    DoneWithinCases(d3.cases, run);
    assert At(EMPTY, es, 3) == d3;
  }

  /** A worker reports the case under another run's identifier. */
  lemma StalledByForeignResult(run: int, other: int, tenant: int, started: int, at: int, c: int)
    requires 0 < c && run != other
    ensures var res := TaskResult(other, [CaseReport(c, CasePassed, 0, "")], [], at);
            var es := [CreateRun(run, tenant, started), CreateCase(c, run, tenant), WorkerResult(res)];
            FreshRun(EMPTY, es) && !Stalled(At(EMPTY, es, 2), run) && Stalled(At(EMPTY, es, 3), run)
  {
    var res := TaskResult(other, [CaseReport(c, CasePassed, 0, "")], [], at);
    var es := [CreateRun(run, tenant, started), CreateCase(c, run, tenant), WorkerResult(res)];
    assert At(EMPTY, es, 0) == EMPTY;
    assert At(EMPTY, es, 1) == Next(EMPTY, es[0]);
    var d2 := At(EMPTY, es, 2);
    assert d2 == Next(At(EMPTY, es, 1), es[1]);
    assert c in WithStatus(d2.cases, run, CaseRunning);
    OneReport(d2, other, c, CasePassed, at);
    var d3 := d2.(cases := d2.cases[c := d2.cases[c].(status := CasePassed, durationMs := 0, error := "")]);
    assert CasesOf(d3.cases, other) == {};
    assert c in CasesOf(d3.cases, run);
    assert At(EMPTY, es, 3) == d3;
  }

  /** No case can be dispatched, yet one was created and failed: the summary counts none. */
  lemma NoneDispatchedMiscounts(run: int, tenant: int, started: int, c: int, error: string, at: int)
    ensures var es := [CreateRun(run, tenant, started), CreateCase(c, run, tenant), CaseFailure(c, error), NoneDispatched(run, at)];
            && FreshRun(EMPTY, es)
            && run in At(EMPTY, es, 4).runs && At(EMPTY, es, 4).runs[run].summary == Counts(0, 0, 0, 0, false)
            && WithStatus(At(EMPTY, es, 4).cases, run, CaseFailed) == {c}
  {
    var es := [CreateRun(run, tenant, started), CreateCase(c, run, tenant), CaseFailure(c, error), NoneDispatched(run, at)];
    assert At(EMPTY, es, 0) == EMPTY;
    assert At(EMPTY, es, 1) == Next(EMPTY, es[0]);
    assert At(EMPTY, es, 2) == Next(At(EMPTY, es, 1), es[1]);
    assert At(EMPTY, es, 3) == Next(At(EMPTY, es, 2), es[2]);
    assert At(EMPTY, es, 4) == Next(At(EMPTY, es, 3), es[3]);
  }

  /** A result overtakes the trigger's next case: the run is closed early, and its summary is one case short. */
  lemma ClosedBeforeLastCase(run: int, tenant: int, started: int, c: int, d: int, at: int)
    requires 0 < c && c != d
    ensures var es := [CreateRun(run, tenant, started), CreateCase(c, run, tenant),
                       WorkerResult(TaskResult(run, [CaseReport(c, CasePassed, 0, "")], [], at)), CreateCase(d, run, tenant)];
            && FreshRun(EMPTY, es) && Settled(At(EMPTY, es, 3), run, false)
            && !Settled(At(EMPTY, es, 4), run, false)
            && At(EMPTY, es, 4).runs[run].summary == Counts(1, 1, 0, 0, false)
            && CasesOf(At(EMPTY, es, 4).cases, run) == {c, d}
  {
    var res := TaskResult(run, [CaseReport(c, CasePassed, 0, "")], [], at);
    var es := [CreateRun(run, tenant, started), CreateCase(c, run, tenant), WorkerResult(res), CreateCase(d, run, tenant)];
    assert At(EMPTY, es, 0) == EMPTY;
    assert At(EMPTY, es, 1) == Next(EMPTY, es[0]);
    var d2 := At(EMPTY, es, 2);
    assert d2 == Next(At(EMPTY, es, 1), es[1]);
    OneReport(d2, run, c, CasePassed, at);
    var passed := d2.(cases := d2.cases[c := d2.cases[c].(status := CasePassed, durationMs := 0, error := "")]);
    assert CasesOf(passed.cases, run) == {c} && Done(passed.cases, run) == {c} && WithStatus(passed.cases, run, CasePassed) == {c};
    assert WithStatus(passed.cases, run, CaseFailed) == {} && WithStatus(passed.cases, run, CaseSkipped) == {};
    assert WithStatus(passed.cases, run, CaseRunning) == {};
    var d3 := At(EMPTY, es, 3);
    assert d3 == passed.(runs := passed.runs[run := passed.runs[run].(status := Passed, finished := Some(at),
                                                                      summary := Counts(1, 1, 0, 0, false))]);
    assert At(EMPTY, es, 4) == Next(d3, es[3]);
    SettledExactly(d3, es[3], run, false);
  }
}
