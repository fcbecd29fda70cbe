/**
 * One stress run's completion counter. `remaining` starts at the number of workers wanted; every
 * report and every failed dispatch lowers it, and only a report that finds it used up closes the run.
 */
module StressCounter {
  import opened Prelude

  datatype Row = Running | Passed | Failed

  datatype Tracker = Tracker(remaining: int, failed: bool)

  /**
   * One run, its tracker, and the handlers on their way. A handler keeps the tracker it has found,
   * registered or not. `found`, `flagged` and `usedUp` count the handlers that have found the tracker,
   * set its flag where the report did not pass, and brought its counter down to zero or below;
   * `ready` holds the flags read by those about to write the row, and `dropping` counts the ones
   * about to let go of the tracker.
   */
  datatype Progress = Progress(registered: bool, tracker: Tracker, row: Row, found: nat, flagged: nat, usedUp: nat,
                               ready: multiset<bool>, dropping: nat, closings: nat)

  datatype Step =
    | Adjust                              // a dispatch failed
    | Arrive                              // a report looks for its tracker
    | Flag(passed: bool)                  // it sets the flag unless it passed
    | Count                               // it lowers the counter
    | Load                                // having used it up, it reads the flag
    | Write(dbOk: bool, failed: bool)     // and writes the row accordingly
    | Drop                                // the tracker is let go
    | Reap                                // the reaper closes the row

  /** No handler is on its way. */
  function Resting(registered: bool, tracker: Tracker, row: Row, closings: nat): Progress {
    Progress(registered, tracker, row, 0, 0, 0, multiset{}, 0, closings)
  }

  function Registered(n: int): Progress {
    Resting(true, Tracker(n, false), Running, 0)
  }

  function Verdict(failed: bool): Row {
    if failed then Failed else Passed
  }

  function Next(p: Progress, s: Step): Progress {
    match s
    case Adjust => if p.registered then p.(tracker := p.tracker.(remaining := p.tracker.remaining - 1)) else p
    case Arrive => if p.registered then p.(found := p.found + 1) else p
    case Flag(passed) =>
      if p.found == 0 then p
      else p.(found := p.found - 1, flagged := p.flagged + 1, tracker := p.tracker.(failed := p.tracker.failed || !passed))
    case Count =>
      if p.flagged == 0 then p
      else
        var t := p.tracker.(remaining := p.tracker.remaining - 1);
        p.(flagged := p.flagged - 1, tracker := t, usedUp := if t.remaining > 0 then p.usedUp else p.usedUp + 1)
    case Load =>
      if p.usedUp == 0 then p
      else p.(usedUp := p.usedUp - 1, ready := p.ready + multiset{p.tracker.failed})
    case Write(dbOk, failed) =>
      if failed !in p.ready then p
      else
        var q := p.(ready := p.ready - multiset{failed});
        if !dbOk then q
        else if p.row == Running then q.(row := Verdict(failed), closings := p.closings + 1, dropping := p.dropping + 1)
        else q.(dropping := p.dropping + 1)
    case Drop => if p.dropping == 0 then p else p.(registered := false, dropping := p.dropping - 1)
    case Reap => p.(row := if p.row == Running then Failed else p.row, dropping := p.dropping + 1)
  }

  /** A handler takes its next step only after the one before. */
  predicate Enabled(p: Progress, s: Step) {
    match s
    case Flag(_) => p.found > 0
    case Count => p.flagged > 0
    case Load => p.usedUp > 0
    case Write(_, failed) => failed in p.ready
    case Drop => p.dropping > 0
    case _ => true
  }

  function Play(p: Progress, steps: seq<Step>, n: nat): Progress
    requires n <= |steps|
  {
    if n == 0 then p else Next(Play(p, steps, n - 1), steps[n - 1])
  }

  ghost predicate Schedule(n: int, steps: seq<Step>) {
    forall k :: 0 <= k < |steps| ==> Enabled(Play(Registered(n), steps, k), steps[k])
  }

  // ---- What one step does ----

  lemma StepOnRow(p: Progress, s: Step)
    ensures p.row != Running ==> Next(p, s).row == p.row && Next(p, s).closings == p.closings
    ensures Next(p, s).closings <= p.closings + 1
    ensures Next(p, s).closings == p.closings + 1 ==> Next(p, s).row != Running
    ensures Enabled(p, s) && p.row == Running ==>
              && Next(p, s).closings == p.closings + (if s.Write? && s.dbOk then 1 else 0)
              && Next(p, s).row == if s.Reap? then Failed else if s.Write? && s.dbOk then Verdict(s.failed) else Running
  {
  }

  lemma StepOnCounter(p: Progress, s: Step)
    requires Enabled(p, s)
    ensures Next(p, s).tracker.remaining == p.tracker.remaining - if s.Count? || (s.Adjust? && p.registered) then 1 else 0
    ensures Next(p, s).tracker.failed <==> p.tracker.failed || s == Flag(false)
    ensures Next(p, s).registered <==> p.registered && !s.Drop?
    ensures Next(p, s).dropping > 0 ==> p.dropping > 0 || s.Reap? || (s.Write? && s.dbOk)
  {
  }

  lemma StepOnWriters(p: Progress, s: Step)
    requires Enabled(p, s)
    ensures Next(p, s).usedUp + |Next(p, s).ready| + (if s.Write? then 1 else 0) ==
            p.usedUp + |p.ready| + if s.Count? && p.tracker.remaining <= 1 then 1 else 0
    ensures forall failed :: failed in Next(p, s).ready ==> failed in p.ready || (s.Load? && failed == p.tracker.failed)
  {
  }

  // ---- Any interleaving ----

  /**
   * However the handlers interleave - several may see the counter used up - the row is closed by at
   * most one of them, and a closed row is never written again.
   */
  lemma {:induction false} ClosedAtMostOnce(n: int, steps: seq<Step>, i: nat, j: nat)
    requires i <= j <= |steps|
    ensures Play(Registered(n), steps, j).closings <= 1
    ensures Play(Registered(n), steps, j).closings == 1 ==> Play(Registered(n), steps, j).row != Running
    ensures Play(Registered(n), steps, i).row != Running ==>
              && Play(Registered(n), steps, j).row == Play(Registered(n), steps, i).row
              && Play(Registered(n), steps, j).closings == Play(Registered(n), steps, i).closings
    decreases j
  {
    hide Next;
    if i < j {
      ClosedAtMostOnce(n, steps, i, j - 1);
      StepOnRow(Play(Registered(n), steps, j - 1), steps[j - 1]);
    } else if j > 0 {
      ClosedAtMostOnce(n, steps, j - 1, j - 1);
      StepOnRow(Play(Registered(n), steps, j - 1), steps[j - 1]);
    }
  }

  /** Decrements among the first `k` steps. */
  function Decrements(steps: seq<Step>, k: nat): nat
    requires k <= |steps|
  {
    if k == 0 then 0 else Decrements(steps, k - 1) + if steps[k - 1].Adjust? || steps[k - 1].Count? then 1 else 0
  }

  /** A report that is the `n`-th decrement or a later one. */
  predicate UsesUp(n: int, steps: seq<Step>, i: nat) {
    i < |steps| && steps[i].Count? && Decrements(steps, i + 1) >= n
  }

  function UsedUps(n: int, steps: seq<Step>, k: nat): nat
    requires k <= |steps|
  {
    if k == 0 then 0 else UsedUps(n, steps, k - 1) + if UsesUp(n, steps, k - 1) then 1 else 0
  }

  /** Updates of the row by handlers, and how many of them failed. */
  function Writes(steps: seq<Step>, k: nat): nat
    requires k <= |steps|
  {
    if k == 0 then 0 else Writes(steps, k - 1) + if steps[k - 1].Write? then 1 else 0
  }

  function FailedWrites(steps: seq<Step>, k: nat): (f: nat)
    requires k <= |steps|
    ensures f <= Writes(steps, k)
  {
    if k == 0 then 0
    else FailedWrites(steps, k - 1) + if steps[k - 1].Write? && !steps[k - 1].dbOk then 1 else 0
  }

  predicate Reaped(steps: seq<Step>, k: nat)
    requires k <= |steps|
  {
    exists j :: 0 <= j < k && steps[j].Reap?
  }

  lemma ReapedOneMore(steps: seq<Step>, k: nat)
    requires 0 < k <= |steps|
    ensures Reaped(steps, k) <==> Reaped(steps, k - 1) || steps[k - 1].Reap?
  {
  }

  /** The counter is what the decrements left of it for as long as the tracker is registered. */
  lemma {:induction false} CounterExact(n: int, steps: seq<Step>, k: nat)
    requires k <= |steps| && Schedule(n, steps)
    ensures var p := Play(Registered(n), steps, k);
            && p.tracker.remaining >= n - Decrements(steps, k)
            && (p.registered ==> p.tracker.remaining == n - Decrements(steps, k))
            && (!p.registered || p.dropping > 0 ==> p.row != Running)
  {
    hide Next;
    if k > 0 {
      CounterExact(n, steps, k - 1);
      StepOnCounter(Play(Registered(n), steps, k - 1), steps[k - 1]);
      StepOnRow(Play(Registered(n), steps, k - 1), steps[k - 1]);
    }
  }

  /** Every report that used the counter up is on its way to the row or has written it. */
  lemma {:induction false} WritersExact(n: int, steps: seq<Step>, k: nat)
    requires k <= |steps| && Schedule(n, steps)
    ensures var p := Play(Registered(n), steps, k);
            && p.usedUp + |p.ready| + Writes(steps, k) <= UsedUps(n, steps, k)
            && (p.registered ==> p.usedUp + |p.ready| + Writes(steps, k) == UsedUps(n, steps, k))
  {
    hide Next;
    if k > 0 {
      WritersExact(n, steps, k - 1);
      CounterExact(n, steps, k - 1);
      StepOnCounter(Play(Registered(n), steps, k - 1), steps[k - 1]);
      StepOnWriters(Play(Registered(n), steps, k - 1), steps[k - 1]);
    }
  }

  /** The row is closed by the reaper or by a write that succeeds, and by nothing else. */
  lemma {:induction false} RowExact(n: int, steps: seq<Step>, k: nat)
    requires k <= |steps| && Schedule(n, steps)
    ensures var p := Play(Registered(n), steps, k);
            && (p.row != Running <==> Reaped(steps, k) || FailedWrites(steps, k) < Writes(steps, k))
            && (!Reaped(steps, k) ==> p.closings == if p.row != Running then 1 else 0)
  {
    hide Next;
    if k > 0 {
      RowExact(n, steps, k - 1);
      StepOnRow(Play(Registered(n), steps, k - 1), steps[k - 1]);
      ReapedOneMore(steps, k);
    }
  }

  /**
   * In every interleaving, with failing updates and the reaper: once no handler is about to write, the
   * run has been closed iff it was reaped or more reports used the counter up - as the n-th decrement or
   * later - than updates failed; without the reaper, it was closed by one handler.
   */
  lemma ClosedExactlyConcurrent(n: int, steps: seq<Step>)
    requires Schedule(n, steps)
    requires var p := Play(Registered(n), steps, |steps|); p.usedUp == 0 && p.ready == multiset{}
    ensures var p := Play(Registered(n), steps, |steps|);
            && (p.row != Running <==> Reaped(steps, |steps|) || FailedWrites(steps, |steps|) < UsedUps(n, steps, |steps|))
            && (!Reaped(steps, |steps|) ==> p.closings == if p.row != Running then 1 else 0)
  {
    CounterExact(n, steps, |steps|);
    WritersExact(n, steps, |steps|);
    RowExact(n, steps, |steps|);
  }

  lemma {:induction false} SomeUsesUp(n: int, steps: seq<Step>, k: nat)
    requires k <= |steps|
    ensures UsedUps(n, steps, k) > 0 <==> exists i :: 0 <= i < k && UsesUp(n, steps, i)
  {
    if k > 0 {
      SomeUsesUp(n, steps, k - 1);
    }
  }

  lemma {:induction false} NoFailedWrites(steps: seq<Step>, k: nat)
    requires k <= |steps| && forall j :: 0 <= j < k && steps[j].Write? ==> steps[j].dbOk
    ensures FailedWrites(steps, k) == 0
  {
    if k > 0 {
      NoFailedWrites(steps, k - 1);
    }
  }

  /** When no update fails and no reaper comes, that is: iff some report is the n-th decrement or later. */
  lemma ClosedUndisturbed(n: int, steps: seq<Step>)
    requires Schedule(n, steps)
    requires forall j :: 0 <= j < |steps| ==> !steps[j].Reap? && (steps[j].Write? ==> steps[j].dbOk)
    requires var p := Play(Registered(n), steps, |steps|); p.usedUp == 0 && p.ready == multiset{}
    ensures Play(Registered(n), steps, |steps|).row != Running <==> exists i :: UsesUp(n, steps, i)
    ensures Play(Registered(n), steps, |steps|).closings == if exists i :: UsesUp(n, steps, i) then 1 else 0
  {
    ClosedExactlyConcurrent(n, steps);
    SomeUsesUp(n, steps, |steps|);
    NoFailedWrites(steps, |steps|);
    assert (exists i :: UsesUp(n, steps, i)) <==> exists i :: 0 <= i < |steps| && UsesUp(n, steps, i);
  }

  /** Some report among the first `k` steps did not pass - whether it has been counted yet or not. */
  predicate SomeFailed(steps: seq<Step>, k: nat)
    requires k <= |steps|
  {
    exists j :: 0 <= j < k && steps[j] == Flag(false)
  }

  lemma SomeFailedOneMore(steps: seq<Step>, k: nat)
    requires 0 < k <= |steps|
    ensures SomeFailed(steps, k) <==> SomeFailed(steps, k - 1) || steps[k - 1] == Flag(false)
  {
  }

  lemma NoneFailedYet(steps: seq<Step>)
    ensures !SomeFailed(steps, 0)
  {
  }

  lemma {:induction false} FlagExact(n: int, steps: seq<Step>, k: nat)
    requires k <= |steps| && Schedule(n, steps)
    ensures Play(Registered(n), steps, k).tracker.failed <==> SomeFailed(steps, k)
  {
    hide Next, SomeFailed, Enabled;
    if k == 0 {
      NoneFailedYet(steps);
    } else {
      FlagExact(n, steps, k - 1);
      StepOnCounter(Play(Registered(n), steps, k - 1), steps[k - 1]);
      SomeFailedOneMore(steps, k);
    }
  }

  /** What a handler about to write has read. */
  ghost predicate ReadAt(steps: seq<Step>, k: nat, failed: bool)
    requires k <= |steps|
  {
    exists l :: 0 <= l < k && steps[l] == Load && failed == SomeFailed(steps, l)
  }

  lemma {:induction false} ReadyExact(n: int, steps: seq<Step>, k: nat, failed: bool)
    requires k <= |steps| && Schedule(n, steps) && failed in Play(Registered(n), steps, k).ready
    ensures ReadAt(steps, k, failed)
  {
    hide Next;
    if k > 0 {
      StepOnWriters(Play(Registered(n), steps, k - 1), steps[k - 1]);
    }
    if k > 0 && failed in Play(Registered(n), steps, k - 1).ready {
      ReadyExact(n, steps, k - 1, failed);
      var l :| 0 <= l < k - 1 && steps[l] == Load && failed == SomeFailed(steps, l);
    } else {
      FlagExact(n, steps, k - 1);
      assert steps[k - 1] == Load && failed == SomeFailed(steps, k - 1);
    }
  }

  /** Step `f` closes the run: the reaper's, or a write of what its handler has read. */
  ghost predicate ClosedAt(n: int, steps: seq<Step>, f: nat, row: Row) {
    && f < |steps| && Play(Registered(n), steps, f).row == Running
    && if steps[f].Reap? then row == Failed
       else steps[f].Write? && steps[f].dbOk && row == Verdict(steps[f].failed) && ReadAt(steps, f, steps[f].failed)
  }

  /**
   * Whoever closes the run writes FAILED exactly when some report did not pass that had set the flag
   * before the closing handler read it - its own, or that of a handler not even counted yet.
   */
  lemma {:induction false} VerdictConcurrent(n: int, steps: seq<Step>, k: nat)
    requires k <= |steps| && Schedule(n, steps) && Play(Registered(n), steps, k).row != Running
    ensures exists f :: 0 <= f < k && ClosedAt(n, steps, f, Play(Registered(n), steps, k).row)
  {
    hide Next;
    var before := Play(Registered(n), steps, k - 1);
    StepOnRow(before, steps[k - 1]);
    if before.row != Running {
      VerdictConcurrent(n, steps, k - 1);
      ClosedAtMostOnce(n, steps, k - 1, k);
      var f :| 0 <= f < k - 1 && ClosedAt(n, steps, f, before.row);
      assert 0 <= f < k && ClosedAt(n, steps, f, Play(Registered(n), steps, k).row);
    } else {
      if steps[k - 1].Write? {
        ReadyExact(n, steps, k - 1, steps[k - 1].failed);
      }
      assert ClosedAt(n, steps, k - 1, Play(Registered(n), steps, k).row);
    }
  }

  predicate LateCounting(steps: seq<Step>) {
    && |steps| == 8 && steps[0] == Adjust && steps[1] == Arrive && steps[2] == Flag(true) && steps[3] == Arrive
    && steps[4] == Flag(false) && steps[5] == Count && steps[6] == Load && steps[7] == Write(true, true)
  }

  lemma OneStep(n: int, steps: seq<Step>, k: nat, p: Progress)
    requires k < |steps| && Play(Registered(n), steps, k) == p && Enabled(p, steps[k])
    ensures Play(Registered(n), steps, k + 1) == Next(p, steps[k])
    ensures Enabled(Play(Registered(n), steps, k), steps[k])
  {
  }

  lemma FlagsSet(steps: seq<Step>)
    requires LateCounting(steps)
    ensures forall k :: 0 <= k < 5 ==> Enabled(Play(Registered(2), steps, k), steps[k])
    ensures Play(Registered(2), steps, 5) == Registered(2).(tracker := Tracker(1, true), flagged := 2)
  {
    var p, t := Registered(2), Tracker(1, false);
    assert Play(p, steps, 0) == p;
    hide Play;
    OneStep(2, steps, 0, p);
    OneStep(2, steps, 1, p.(tracker := t));
    OneStep(2, steps, 2, p.(tracker := t, found := 1));
    OneStep(2, steps, 3, p.(tracker := t, flagged := 1));
    OneStep(2, steps, 4, p.(tracker := t, flagged := 1, found := 1));
  }

  lemma CountLoadWrite(p: Progress)
    requires p.registered && p.tracker == Tracker(1, true) && p.row == Running && p.flagged == 2
    requires p.usedUp == 0 && p.ready == multiset{}
    ensures var q := Next(p, Count);
            var r := Next(q, Load);
            && Enabled(p, Count) && Enabled(q, Load) && Enabled(r, Write(true, true))
            && Next(r, Write(true, true)).row == Failed && Next(r, Write(true, true)).flagged == 1
  {
    var u := p.(tracker := Tracker(0, true), flagged := 1);
    assert Next(p, Count) == u.(usedUp := 1);
    assert Next(Next(p, Count), Load) == u.(ready := multiset{true});
  }

  lemma OneCounted(steps: seq<Step>, p: Progress)
    requires LateCounting(steps) && Play(Registered(2), steps, 5) == p
    requires p.registered && p.tracker == Tracker(1, true) && p.row == Running && p.flagged == 2
    requires p.usedUp == 0 && p.ready == multiset{}
    ensures Enabled(Play(Registered(2), steps, 5), steps[5]) && Enabled(Play(Registered(2), steps, 6), steps[6])
    ensures Enabled(Play(Registered(2), steps, 7), steps[7])
    ensures Play(Registered(2), steps, 8).row == Failed && Play(Registered(2), steps, 8).flagged == 1
  {
    CountLoadWrite(p);
    hide Play, Next, Enabled, Registered;
    OneStep(2, steps, 5, p);
    OneStep(2, steps, 6, Next(p, Count));
    OneStep(2, steps, 7, Next(Next(p, Count), Load));
  }

  /** Two tasks wanted, one dispatch failed, two sent: the report that closes the run passed, one not yet counted did not. */
  lemma FlaggedBeforeCounted(steps: seq<Step>)
    requires steps == [Adjust, Arrive, Flag(true), Arrive, Flag(false), Count, Load, Write(true, true)]
    ensures Schedule(2, steps)
    ensures Play(Registered(2), steps, 8).row == Failed && Play(Registered(2), steps, 8).flagged == 1
  {
    hide Play, Next, Enabled;
    FlagsSet(steps);
    OneCounted(steps, Registered(2).(tracker := Tracker(1, true), flagged := 2));
  }

  /** Alone, in one go, the same report closes the run as passed. */
  lemma CountedAlone()
    ensures After(2, [DispatchFailed, Report(true)], 2).row == Passed
  {
    var es := [DispatchFailed, Report(true)];
    hide Reported;
    assert After(2, es, 0) == Registered(2);
    assert After(2, es, 1) == Resting(true, Tracker(1, false), Running, 0);
    ReportedAlone(true, Tracker(1, false), Running, 0, true, true);
  }

  // ---- Which report closes the run ----

  datatype Event = DispatchFailed | Report(passed: bool)

  /** A report handled in one go, as when no other handler is on its way. */
  function Reported(p: Progress, passed: bool, dbOk: bool): Progress {
    var q := Next(Next(Next(p, Arrive), Flag(passed)), Count);
    if q.usedUp == 0 then q
    else
      var w := Next(Next(q, Load), Write(dbOk, q.tracker.failed));
      if dbOk then Next(w, Drop) else w
  }

  /** A reaping in one go: the row is closed, and the tracker let go either way. */
  function ReapedAlone(p: Progress): Progress {
    Next(Next(p, Reap), Drop)
  }

  /** Three steps in one, and three more when the counter is used up. */
  lemma ReportedAlone(registered: bool, t: Tracker, row: Row, c: nat, passed: bool, dbOk: bool)
    ensures Reported(Resting(registered, t, row, c), passed, dbOk) ==
            var failed := t.failed || !passed;
            var after := Tracker(t.remaining - 1, failed);
            if !registered then Resting(false, t, row, c)
            else if after.remaining > 0 || !dbOk then Resting(true, after, row, c)
            else if row == Running then Resting(false, after, Verdict(failed), c + 1)
            else Resting(false, after, row, c)
  {
    var p := Resting(registered, t, row, c);
    if registered {
      var after := Tracker(t.remaining - 1, t.failed || !passed);
      CountedFirst(p, passed);
      WrittenNext(p.(tracker := after), dbOk);
      hide Next;
    }
  }

  lemma CountedFirst(p: Progress, passed: bool)
    requires p.registered && p.found == 0 && p.flagged == 0 && p.usedUp == 0
    ensures Next(Next(Next(p, Arrive), Flag(passed)), Count) ==
            var after := Tracker(p.tracker.remaining - 1, p.tracker.failed || !passed);
            p.(tracker := after, usedUp := if after.remaining > 0 then 0 else 1)
  {
    var q := Next(Next(p, Arrive), Flag(passed));
    assert q == p.(flagged := 1, tracker := Tracker(p.tracker.remaining, p.tracker.failed || !passed));
  }

  lemma WrittenNext(p: Progress, dbOk: bool)
    requires p.ready == multiset{} && p.usedUp == 0 && p.dropping == 0
    ensures var failed := p.tracker.failed;
            var w := Next(Next(p.(usedUp := 1), Load), Write(dbOk, failed));
            && (!dbOk ==> w == p)
            && (dbOk ==> Next(w, Drop) == if p.row == Running
                                          then p.(registered := false, row := Verdict(failed), closings := p.closings + 1)
                                          else p.(registered := false))
  {
    var failed := p.tracker.failed;
    var loaded := Next(p.(usedUp := 1), Load);
    assert loaded == p.(ready := multiset{failed});
    assert multiset{failed} - multiset{failed} == multiset{};
  }

  lemma ReapingAlone(registered: bool, t: Tracker, row: Row, c: nat)
    ensures ReapedAlone(Resting(registered, t, row, c)) == Resting(false, t, if row == Running then Failed else row, c)
  {
  }

  function Handle(p: Progress, e: Event): Progress {
    match e
    case DispatchFailed => Next(p, Adjust)
    case Report(passed) => Reported(p, passed, true)
  }

  function After(n: int, es: seq<Event>, k: nat): Progress
    requires k <= |es|
  {
    if k == 0 then Registered(n) else Handle(After(n, es, k - 1), es[k - 1])
  }

  predicate AnyFailed(es: seq<Event>, k: nat)
    requires k <= |es|
  {
    exists j :: 0 <= j < k && es[j] == Report(false)
  }

  /** The `i`-th event is a report, and with it at least `n` decrements have been made. */
  predicate Closes(n: int, es: seq<Event>, i: nat) {
    i < |es| && es[i].Report? && i + 1 >= n
  }

  function FirstClosing(n: int, es: seq<Event>, k: nat): (f: Option<nat>)
    requires k <= |es|
    ensures f.None? ==> forall i :: 0 <= i < k ==> !Closes(n, es, i)
    ensures f.Some? ==> f.value < k && Closes(n, es, f.value) && forall j :: 0 <= j < f.value ==> !Closes(n, es, j)
  {
    if k == 0 then None
    else
      var before := FirstClosing(n, es, k - 1);
      if before.Some? then before else if Closes(n, es, k - 1) then Some(k - 1) else None
  }

  /** Untouched counting until the first closing report, final from then on. */
  function StateBy(n: int, es: seq<Event>, k: nat): Progress
    requires k <= |es|
  {
    match FirstClosing(n, es, k)
    case None => Resting(true, Tracker(n - k, AnyFailed(es, k)), Running, 0)
    case Some(f) => Resting(false, Tracker(n - f - 1, AnyFailed(es, f + 1)), Verdict(AnyFailed(es, f + 1)), 1)
  }

  lemma {:induction false} CounterState(n: int, es: seq<Event>, k: nat)
    requires k <= |es|
    ensures After(n, es, k) == StateBy(n, es, k)
  {
    hide AnyFailed, Reported;
    if k > 0 {
      CounterState(n, es, k - 1);
      AnyFailedOneMore(es, k);
      var before := After(n, es, k - 1);
      if es[k - 1].Report? {
        ReportedAlone(before.registered, before.tracker, before.row, before.closings, es[k - 1].passed, true);
      }
    } else {
      NoneFailed(es);
    }
  }

  lemma AnyFailedOneMore(es: seq<Event>, k: nat)
    requires 0 < k <= |es|
    ensures AnyFailed(es, k) <==> AnyFailed(es, k - 1) || es[k - 1] == Report(false)
  {
  }

  lemma NoneFailed(es: seq<Event>)
    ensures !AnyFailed(es, 0)
  {
  }

  /** In any interleaving of reports and failed dispatches the run closes iff a report comes as n-th event or later. */
  lemma ClosedExactly(n: int, es: seq<Event>)
    ensures After(n, es, |es|).row != Running <==> exists i :: Closes(n, es, i)
    ensures After(n, es, |es|).row != Running ==> After(n, es, |es|).closings == 1
  {
    hide After;
    CounterState(n, es, |es|);
  }

  /** A schedule in which the dispatch loop ends before any report is handled: f failures, then reports. */
  predicate LoopFirst(es: seq<Event>, f: nat) {
    f <= |es| && (forall k :: 0 <= k < f ==> es[k].DispatchFailed?) && forall k :: f <= k < |es| ==> es[k].Report?
  }

  /**
   * Then the closing report is number max(1, n - f), and the run fails iff one of the reports up to
   * that one did not pass.
   */
  lemma LoopFirstCloses(n: nat, es: seq<Event>, f: nat, r: nat)
    requires LoopFirst(es, f) && f + r <= |es|
    ensures After(n, es, f + r).row != Running <==> r >= 1 && r >= n - f
    ensures After(n, es, f + r).row == Failed <==>
              r >= 1 && r >= n - f && AnyFailed(es, if n > f then n else f + 1)
  {
    hide After;
    var k := f + r;
    CounterState(n, es, k);
    if r >= 1 && r >= n - f {
      var first := if n - f >= 1 then n - 1 else f;
      assert Closes(n, es, first) && first < k;
      assert forall j :: 0 <= j < first ==> !Closes(n, es, j);
      assert FirstClosing(n, es, k) == Some(first);
    }
  }

  /** With exactly n candidates, every one either sent to or failed, the last report closes the run and no earlier one. */
  lemma FullHouseClosesLast(n: nat, es: seq<Event>, f: nat, r: nat)
    requires LoopFirst(es, f) && |es| == n && f < n && f + r <= n
    ensures After(n, es, f + r).row != Running <==> f + r == n
  {
    LoopFirstCloses(n, es, f, r);
  }

  /** With n events in all, in any order, the run is closed exactly when the last of them is a report. */
  lemma LastEventDecides(n: nat, es: seq<Event>)
    requires |es| == n > 0
    ensures After(n, es, n).row != Running <==> es[n - 1].Report?
  {
    ClosedExactly(n, es);
    assert Closes(n, es, n - 1) <==> es[n - 1].Report?;
  }

  /** If every report is handled before the n-th event, the run stays open: nobody is left to close it. */
  lemma EarlyReportsStrand(n: nat, es: seq<Event>)
    requires n > 0 && forall i :: n - 1 <= i < |es| ==> es[i].DispatchFailed?
    ensures After(n, es, |es|).row == Running
  {
    forall i ensures !Closes(n, es, i) {
    }
    ClosedExactly(n, es);
  }
}
