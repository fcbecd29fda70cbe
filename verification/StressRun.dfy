/** Starting a stress run: the target, the share of each worker, the dispatch loop, and the reports. */
module StressRun {
  import opened Prelude
  import Counter = StressCounter

  function Max(a: int, b: int): int { if a > b then a else b }

  function Min(a: int, b: int): int { if a < b then a else b }

  /** Largest of the ramp targets and `concurrency_per_worker * worker_count`, at least 1. */
  method TotalTarget(perWorker: int, workerCount: int, ramp: seq<int>) returns (total: int)
    ensures total >= 1 && total >= perWorker * Max(workerCount, 1) && forall k :: 0 <= k < |ramp| ==> ramp[k] <= total
    ensures total == 1 || total == perWorker * Max(workerCount, 1) || total in ramp
  {
    total := perWorker * Max(workerCount, 1);
    var base := total;
    for k := 0 to |ramp|
      invariant total >= base && (total == base || total in ramp)
      invariant forall j :: 0 <= j < k ==> ramp[j] <= total
    {
      if ramp[k] > total {
        total := ramp[k];
      }
    }
    if total <= 0 {
      total := 1;
    }
  }

  /** Load of the `index`-th worker that is actually sent a task. */
  function Share(total: nat, n: nat, index: nat): (s: nat)
    requires n > 0
    ensures s >= 1
  {
    var load := total / n + (if index < total % n then 1 else 0);
    if load <= 0 then 1 else load
  }

  function Shares(total: nat, n: nat, d: nat): (s: seq<nat>)
    requires n > 0
    ensures |s| == d && forall i :: 0 <= i < d ==> s[i] == Share(total, n, i)
  {
    if d == 0 then [] else Shares(total, n, d - 1) + [Share(total, n, d - 1)]
  }

  function Sum(s: seq<nat>): nat {
    if s == [] then 0 else Sum(s[..|s| - 1]) + s[|s| - 1]
  }

  lemma DivisionFacts(total: nat, n: nat)
    requires n > 0
    ensures total >= n ==> total / n >= 1
    ensures total < n ==> total / n == 0 && total % n == total
    ensures n * (total / n) + total % n == total && total % n < n
  {
  }

  lemma OneMore(d: nat, q: nat)
    ensures (d + 1) * q == d * q + q
  {
  }

  lemma {:induction false} SharesSum(total: nat, n: nat, d: nat)
    requires n > 0 && d <= n
    ensures total >= n ==> Sum(Shares(total, n, d)) == d * (total / n) + Min(d, total % n)
    ensures total < n ==> Sum(Shares(total, n, d)) == d
  {
    DivisionFacts(total, n);
    var q, r := total / n, total % n;
    if d > 0 {
      SharesSum(total, n, d - 1);
      assert Shares(total, n, d)[..d - 1] == Shares(total, n, d - 1);
      OneMore(d - 1, q);
      assert Share(total, n, d - 1) == if q == 0 then 1 else q + (if d - 1 < r then 1 else 0);
    }
  }

  lemma SharesOrdered(total: nat, n: nat, i: nat, j: nat)
    requires n > 0 && i < j
    ensures Share(total, n, j) <= Share(total, n, i) <= Share(total, n, j) + 1
  {
    DivisionFacts(total, n);
  }

  /**
   * The split is even: shares never grow, differ by at most one, and, when all n workers take part,
   * add up to the target (or to n, one each, when the target is smaller).
   */
  lemma LoadSplit(total: nat, n: nat, d: nat)
    requires n > 0 && d <= n
    ensures forall i, j :: 0 <= i < j < d ==> Shares(total, n, d)[j] <= Shares(total, n, d)[i] <= Shares(total, n, d)[j] + 1
    ensures Sum(Shares(total, n, n)) == Max(total, n)
    ensures total >= n ==> Sum(Shares(total, n, d)) == d * (total / n) + Min(d, total % n)
    ensures total < n ==> Sum(Shares(total, n, d)) == d
  {
    SharesSum(total, n, d);
    SharesSum(total, n, n);
    DivisionFacts(total, n);
    forall i, j | 0 <= i < j < d
      ensures Shares(total, n, d)[j] <= Shares(total, n, d)[i] <= Shares(total, n, d)[j] + 1
    {
      SharesOrdered(total, n, i, j);
    }
  }

  // ---- The dispatcher's bookkeeping ----

  datatype Task = Task(run: int, worker: string, index: nat, load: nat)

  /** What `DispatchStress` came back with for a candidate. */
  datatype Attempt = Sent | Refused

  function Failures(outcomes: seq<Attempt>, k: nat): nat
    requires k <= |outcomes|
  {
    if k == 0 then 0 else Failures(outcomes, k - 1) + if outcomes[k - 1].Refused? then 1 else 0
  }

  /** The candidates among the first `k` that took a task, in order. */
  function SentTo(candidates: seq<string>, outcomes: seq<Attempt>, k: nat): (ws: seq<string>)
    requires k <= |outcomes| == |candidates|
    ensures |ws| + Failures(outcomes, k) == k
  {
    if k == 0 then [] else SentTo(candidates, outcomes, k - 1) + if outcomes[k - 1].Sent? then [candidates[k - 1]] else []
  }

  /** One task per worker reached, numbered in order, each with its share of the load. */
  ghost predicate Plan(tasks: seq<Task>, run: int, total: nat, n: nat, workers: seq<string>)
    requires n > 0
  {
    && |tasks| == |workers|
    && forall i :: 0 <= i < |tasks| ==> tasks[i] == Task(run, workers[i], i, Shares(total, n, |tasks|)[i])
  }

  lemma NoPlan(run: int, total: nat, n: nat)
    requires n > 0
    ensures Plan([], run, total, n, [])
  {
  }

  lemma PlanGrows(tasks: seq<Task>, run: int, total: nat, n: nat, workers: seq<string>, w: string)
    requires n > 0 && Plan(tasks, run, total, n, workers)
    ensures Plan(tasks + [Task(run, w, |tasks|, Share(total, n, |tasks|))], run, total, n, workers + [w])
  {
    hide Share;
  }

  function Loads(tasks: seq<Task>): seq<nat> {
    seq(|tasks|, i requires 0 <= i < |tasks| => tasks[i].load)
  }

  lemma {:induction false} NoFailures(candidates: seq<string>, outcomes: seq<Attempt>, k: nat)
    requires k <= |outcomes| == |candidates| && forall j :: 0 <= j < k ==> outcomes[j].Sent?
    ensures Failures(outcomes, k) == 0 && SentTo(candidates, outcomes, k) == candidates[..k]
  {
    if k > 0 {
      NoFailures(candidates, outcomes, k - 1);
      assert candidates[..k] == candidates[..k - 1] + [candidates[k - 1]];
    }
  }

  /** When every worker takes its task, the loads add up to the target, or to one each. */
  lemma AllSent(tasks: seq<Task>, run: int, total: nat, n: nat, candidates: seq<string>, outcomes: seq<Attempt>, tried: nat)
    requires 0 < n <= |candidates| == |outcomes| && tried <= |candidates| && LoopDone(n, outcomes, tried)
    requires Plan(tasks, run, total, n, SentTo(candidates, outcomes, tried))
    requires forall k :: 0 <= k < |outcomes| ==> outcomes[k].Sent?
    ensures tried == n == |tasks| && Failures(outcomes, tried) == 0 && Sum(Loads(tasks)) == Max(total, n)
    ensures forall i :: 0 <= i < |tasks| ==> tasks[i].worker == candidates[i] && tasks[i].run == run && tasks[i].index == i
  {
    NoFailures(candidates, outcomes, tried);
    LoadSplit(total, n, n);
    assert Loads(tasks) == Shares(total, n, n);
  }

  /** The loop stopped because n tasks were out, or because every candidate had been tried. */
  predicate LoopDone(n: nat, outcomes: seq<Attempt>, tried: nat)
    requires tried <= |outcomes|
  {
    var sent := tried - Failures(outcomes, tried);
    sent == n || (sent < n && tried == |outcomes|)
  }

  function Counting(remaining: int): Counter.Progress {
    Counter.Resting(true, Counter.Tracker(remaining, false), Counter.Running, 0)
  }

  function Wanted(workerCount: int, candidates: seq<string>): nat {
    Min(Max(workerCount, 1), |candidates|)
  }

  class Dispatcher {
    var trackers: map<int, Counter.Tracker>
    var rows: map<int, Counter.Row>
    ghost var closings: map<int, nat>
    /** What a handler that has found a tracker still holds once it has been let go. */
    ghost var dropped: map<int, Counter.Tracker>

    constructor ()
      ensures trackers == map[] && rows == map[] && closings == map[] && dropped == map[]
    {
      trackers, rows, closings, dropped := map[], map[], map[], map[];
    }

    /** One run as the counter protocol sees it. */
    ghost function View(run: int): Counter.Progress
      reads this
    {
      Counter.Resting(run in trackers,
                      if run in trackers then trackers[run] else if run in dropped then dropped[run] else Counter.Tracker(0, false),
                      if run in rows then rows[run] else Counter.Failed,
                      if run in closings then closings[run] else 0)
    }

    ghost predicate Known(run: int)
      reads this
    {
      run in rows && run in closings
    }

    method RegisterStressRun(run: int, tasks: int)
      requires run !in rows
      modifies this
      ensures Known(run) && View(run) == Counter.Registered(tasks)
      ensures forall r :: r != run ==> View(r) == old(View(r)) && (old(Known(r)) ==> Known(r))
    {
      rows := rows[run := Counter.Running];
      closings := closings[run := 0];
      trackers := trackers[run := Counter.Tracker(tasks, false)];
    }

    method AdjustStressRun(run: int, delta: int)
      modifies this`trackers
      ensures trackers == if run in old(trackers)
                          then old(trackers)[run := Counter.Tracker(old(trackers)[run].remaining + delta, old(trackers)[run].failed)]
                          else old(trackers)
    {
      if run in trackers {
        trackers := trackers[run := trackers[run].(remaining := trackers[run].remaining + delta)];
      }
    }

    method DropStressRun(run: int)
      modifies this`trackers, this`dropped
      ensures trackers == old(trackers) - {run}
      ensures dropped == if run in old(trackers) then old(dropped)[run := old(trackers)[run]] else old(dropped)
    {
      if run in trackers {
        dropped := dropped[run := trackers[run]];
      }
      trackers := trackers - {run};
    }

    /** Counting a report, and closing the run when the counter is used up; `dbOk` is how the update went. */
    method HandleStressResult(run: int, passed: bool, dbOk: bool)
      requires Known(run)
      modifies this
      ensures Known(run) && View(run) == Counter.Reported(old(View(run)), passed, dbOk)
      ensures forall r :: r != run ==> View(r) == old(View(r)) && (old(Known(r)) ==> Known(r))
    {
      hide Counter.Reported;
      ghost var before := View(run);
      Counter.ReportedAlone(before.registered, before.tracker, before.row, before.closings, passed, dbOk);
      if run !in trackers {
        return;
      }
      var st := trackers[run];
      if !passed {
        st := st.(failed := true);
      }
      st := st.(remaining := st.remaining - 1);
      trackers := trackers[run := st];
      if st.remaining > 0 {
        return;
      }
      var status := Counter.Passed;
      if st.failed {
        status := Counter.Failed;
      }
      if !dbOk {
        // The tracker stays, so that a later report can try again.
        return;
      }
      var affected := rows[run] == Counter.Running;
      if affected {
        rows := rows[run := status];
      }
      DropStressRun(run);
      if affected {
        closings := closings[run := closings[run] + 1];
      }
    }

    /** The stress half of a reaping pass: close the row, and let go of the tracker either way. */
    method ReapStressRuns(ids: seq<int>)
      requires forall k :: 0 <= k < |ids| ==> Known(ids[k])
      requires forall j, k :: 0 <= j < k < |ids| ==> ids[j] != ids[k]
      modifies this
      ensures forall r :: View(r) == if r in ids then Counter.ReapedAlone(old(View(r))) else old(View(r))
      ensures forall r :: old(Known(r)) ==> Known(r)
    {
      hide Counter.ReapedAlone;
      for k := 0 to |ids|
        invariant forall r :: View(r) == if r in ids[..k] then Counter.ReapedAlone(old(View(r))) else old(View(r))
        invariant forall r :: old(Known(r)) ==> Known(r)
      {
        var id := ids[k];
        assert id !in ids[..k];
        ghost var before := View(id);
        Counter.ReapingAlone(before.registered, before.tracker, before.row, before.closings);
        if rows[id] == Counter.Running {
          rows := rows[id := Counter.Failed];
        }
        DropStressRun(id);
        assert ids[..k + 1] == ids[..k] + [id];
      }
      assert ids[..|ids|] == ids;
    }

    /** Start-up: trackers do not survive a restart, and rows left RUNNING are closed. */
    method RecoverStressRuns()
      requires trackers == map[]
      modifies this`rows
      ensures rows.Keys == old(rows).Keys
      ensures forall r :: r in rows ==> rows[r] == if old(rows)[r] == Counter.Running then Counter.Failed else old(rows)[r]
      ensures forall r :: old(Known(r)) ==> View(r) == Counter.ReapedAlone(old(View(r)))
    {
      rows := map r | r in rows :: if rows[r] == Counter.Running then Counter.Failed else rows[r];
    }

    /** Starts a run on up to `workerCount` of the candidates; `ok` is false when nothing could be sent. */
    method TriggerStress(run: int, workerCount: int, candidates: seq<string>, total: nat, outcomes: seq<Attempt>)
      returns (tasks: seq<Task>, tried: nat, ok: bool)
      requires |candidates| == |outcomes| && run !in rows
      modifies this
      ensures ok <==> tasks != []
      ensures candidates == [] ==> tasks == [] && rows == old(rows) && trackers == old(trackers)
      ensures candidates != [] ==> tried <= |candidates| && LoopDone(Wanted(workerCount, candidates), outcomes, tried)
      ensures candidates != [] ==> Plan(tasks, run, total, Wanted(workerCount, candidates), SentTo(candidates, outcomes, tried))
      ensures candidates != [] ==> Known(run)
      ensures candidates != [] && tasks == [] ==>
                View(run) == Counter.Resting(false, Counter.Tracker(Wanted(workerCount, candidates) - Failures(outcomes, tried), false),
                                             Counter.Failed, 0)
      ensures tasks != [] ==> View(run) == Counting(Wanted(workerCount, candidates) - Failures(outcomes, tried))
      ensures |tasks| <= workerCount || |tasks| <= 1
      ensures |tasks| < workerCount || |tasks| < 1 ==> tried == |candidates|
      ensures tried == |tasks| + Failures(outcomes, tried) && tried <= |candidates|
      ensures (forall k :: 0 <= k < |outcomes| ==> outcomes[k].Sent?) && tasks != [] ==>
        && Sum(Loads(tasks)) == (if total > |tasks| then total else |tasks|)
        && View(run) == Counting(|tasks|)
        && forall i :: 0 <= i < |tasks| ==> tasks[i].worker == candidates[i] && tasks[i].run == run && tasks[i].index == i
      ensures forall r :: r != run ==> View(r) == old(View(r)) && (old(Known(r)) ==> Known(r))
    {
      var n := Wanted(workerCount, candidates);
      if n == 0 {
        return [], 0, false;
      }
      tasks, tried := DispatchLoop(run, n, candidates, total, outcomes);
      if forall k :: 0 <= k < |outcomes| ==> outcomes[k].Sent? {
        AllSent(tasks, run, total, n, candidates, outcomes, tried);
      }
      ok := |tasks| > 0;
      if |tasks| == 0 {
        DropStressRun(run);
        rows := rows[run := Counter.Failed];
      }
    }

    /** Tries candidates until n tasks are out or none is left; each refusal lowers the counter. */
    method DispatchLoop(run: int, n: nat, candidates: seq<string>, total: nat, outcomes: seq<Attempt>)
      returns (tasks: seq<Task>, tried: nat)
      requires 0 < n <= |candidates| == |outcomes| && run !in rows
      modifies this
      ensures tried <= |candidates| && LoopDone(n, outcomes, tried)
      ensures Plan(tasks, run, total, n, SentTo(candidates, outcomes, tried))
      ensures Known(run) && View(run) == Counting(n - Failures(outcomes, tried))
      ensures forall r :: r != run ==> View(r) == old(View(r)) && (old(Known(r)) ==> Known(r))
    {
      hide Plan;
      RegisterStressRun(run, n);
      var base, extra := total / n, total % n;
      var dispatched := 0;
      tasks, tried := [], 0;
      NoPlan(run, total, n);
      while tried < |candidates| && dispatched < n
        invariant 0 <= tried <= |candidates| && dispatched == |tasks| <= n
        invariant |tasks| == |SentTo(candidates, outcomes, tried)|
        invariant Plan(tasks, run, total, n, SentTo(candidates, outcomes, tried))
        invariant Known(run) && View(run) == Counting(n - Failures(outcomes, tried))
        invariant forall r :: r != run ==> View(r) == old(View(r)) && (old(Known(r)) ==> Known(r))
      {
        var load := base;
        if dispatched < extra {
          load := load + 1;
        }
        if load <= 0 {
          load := 1;
        }
        var task := Task(run, candidates[tried], dispatched, load);
        assert load == Share(total, n, dispatched);
        PlanGrows(tasks, run, total, n, SentTo(candidates, outcomes, tried), candidates[tried]);
        assert SentTo(candidates, outcomes, tried) + [] == SentTo(candidates, outcomes, tried);
        if outcomes[tried].Refused? {
          AdjustStressRun(run, -1);
        } else {
          tasks, dispatched := tasks + [task], dispatched + 1;
        }
        tried := tried + 1;
      }
    }
  }

  /** What the loop leaves is the counter protocol after that many dispatch failures. */
  lemma {:induction false} FailuresAreAdjustments(n: nat, f: nat, es: seq<Counter.Event>)
    requires f <= |es| && forall k :: 0 <= k < f ==> es[k].DispatchFailed?
    ensures Counter.After(n, es, f) == Counting(n - f)
  {
    Counter.CounterState(n, es, f);
  }

  /**
   * Progress: when the loop has ended before any report is handled, and every worker it reached reports
   * once, the run is closed, and closed once.
   */
  lemma AllReportsClose(n: nat, outcomes: seq<Attempt>, tried: nat, es: seq<Counter.Event>)
    requires 0 < n && tried <= |outcomes| && LoopDone(n, outcomes, tried) && Failures(outcomes, tried) < tried
    requires n <= |outcomes|
    requires |es| == tried && Counter.LoopFirst(es, Failures(outcomes, tried))
    ensures Counter.After(n, es, tried).row != Counter.Running && Counter.After(n, es, tried).closings == 1
  {
    hide Counter.After;
    var f := Failures(outcomes, tried);
    Counter.LoopFirstCloses(n, es, f, tried - f);
    Counter.ClosedExactly(n, es);
  }

  /** No report before the closing one closes it, and those after it change nothing. */
  lemma ClosedByReport(n: nat, outcomes: seq<Attempt>, tried: nat, es: seq<Counter.Event>, r: nat)
    requires 0 < n && tried <= |outcomes| && n <= |outcomes| && LoopDone(n, outcomes, tried)
    requires Counter.LoopFirst(es, Failures(outcomes, tried)) && |es| == tried
    requires Failures(outcomes, tried) + r <= tried
    ensures var f := Failures(outcomes, tried);
            Counter.After(n, es, f + r).row != Counter.Running <==> r >= Max(1, n - f)
  {
    hide Counter.After;
    Counter.LoopFirstCloses(n, es, Failures(outcomes, tried), r);
  }
}
