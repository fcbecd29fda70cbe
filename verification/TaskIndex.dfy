/** Which outstanding task belongs to which run, indexed both ways. */
module TaskIndex {

  datatype Index = Index(taskRuns: map<string, int>, runTasks: map<int, set<string>>)

  function TasksOf(x: Index, run: int): set<string> {
    if run in x.runTasks then x.runTasks[run] else {}
  }

  function Tracked(x: Index, task: string, run: int): Index {
    if task == "" || run <= 0 then x
    else Index(x.taskRuns[task := run], x.runTasks[run := TasksOf(x, run) + {task}])
  }

  function Untracked(x: Index, task: string): Index {
    if task !in x.taskRuns then x
    else
      var run := x.taskRuns[task];
      var rest := TasksOf(x, run) - {task};
      Index(x.taskRuns - {task},
            if run !in x.runTasks then x.runTasks else if rest == {} then x.runTasks - {run} else x.runTasks[run := rest])
  }

  /** The two maps say the same, and no run is kept without tasks. */
  ghost predicate Agrees(x: Index) {
    && (forall task, run :: task in x.taskRuns && x.taskRuns[task] == run <==> task in TasksOf(x, run))
    && (forall run :: run in x.runTasks ==> x.runTasks[run] != {})
  }

  /** Tracking keeps the maps in step exactly when the task is not tracked for another run. */
  lemma TrackKeeps(x: Index, task: string, run: int)
    requires Agrees(x)
    ensures Agrees(Tracked(x, task, run)) <==>
            task == "" || run <= 0 || task !in x.taskRuns || x.taskRuns[task] == run
  {
    var y := Tracked(x, task, run);
    if task != "" && run > 0 {
      forall t, r ensures t in TasksOf(y, r) <==> t in TasksOf(x, r) || (t == task && r == run) {
      }
      if task in x.taskRuns && x.taskRuns[task] != run {
        var other := x.taskRuns[task];
        assert task in TasksOf(x, other) && task in TasksOf(y, other);
        assert y.taskRuns[task] != other;
      } else {
        forall t, r ensures t in y.taskRuns && y.taskRuns[t] == r <==> t in TasksOf(y, r) {
          assert t in x.taskRuns && x.taskRuns[t] == r <==> t in TasksOf(x, r);
        }
      }
    }
  }

  lemma UntrackKeeps(x: Index, task: string)
    requires Agrees(x)
    ensures Agrees(Untracked(x, task))
    ensures forall run :: TasksOf(Untracked(x, task), run) == TasksOf(x, run) - {task}
  {
    var y := Untracked(x, task);
    forall run ensures TasksOf(y, run) == TasksOf(x, run) - {task} {
      if task in x.taskRuns {
        assert task in TasksOf(x, x.taskRuns[task]);
      }
    }
    forall t, r ensures t in y.taskRuns && y.taskRuns[t] == r <==> t in TasksOf(y, r) {
      assert t in x.taskRuns && x.taskRuns[t] == r <==> t in TasksOf(x, r);
    }
  }

  // ---- Whole histories ----

  /** A task is sent for a run, or is over: reported, or its sending failed. */
  datatype Event = Sent(task: string, run: int) | Over(task: string)

  function After(events: seq<Event>): Index {
    if events == [] then Index(map[], map[])
    else
      var x := After(events[..|events| - 1]);
      match events[|events| - 1]
      case Sent(task, run) => Tracked(x, task, run)
      case Over(task) => Untracked(x, task)
  }

  /** Task identifiers are made up once, and belong to a real run. */
  predicate FreshTasks(events: seq<Event>) {
    forall i :: 0 <= i < |events| && events[i].Sent? ==>
      events[i].task != "" && events[i].run > 0
      && forall j :: 0 <= j < i && events[j].Sent? ==> events[j].task != events[i].task
  }

  /** Sent for the run and not over. */
  ghost predicate Outstanding(events: seq<Event>, task: string, run: int) {
    exists i :: 0 <= i < |events| && events[i] == Sent(task, run) && NotOver(events, i, task)
  }

  predicate NotOver(events: seq<Event>, i: nat, task: string) {
    forall j :: i < j < |events| ==> events[j] != Over(task)
  }

  lemma OutstandingStep(events: seq<Event>, e: Event, task: string, run: int)
    ensures Outstanding(events + [e], task, run) <==>
            e == Sent(task, run) || (Outstanding(events, task, run) && e != Over(task))
  {
    var more := events + [e];
    if i :| 0 <= i < |more| && more[i] == Sent(task, run) && NotOver(more, i, task) {
      if i < |events| {
        assert more[|events|] == e;
        assert forall j :: i < j < |events| ==> events[j] == more[j];
        assert events[i] == Sent(task, run) && NotOver(events, i, task);
      }
    }
    if e == Sent(task, run) {
      assert more[|events|] == e && NotOver(more, |events|, task);
    } else if Outstanding(events, task, run) && e != Over(task) {
      var i :| 0 <= i < |events| && events[i] == Sent(task, run) && NotOver(events, i, task);
      assert more[i] == events[i] && NotOver(more, i, task);
    }
  }

  /** After any history both maps hold exactly the outstanding tasks. */
  lemma {:induction false} HoldsOutstanding(events: seq<Event>)
    requires FreshTasks(events)
    ensures Agrees(After(events))
    ensures forall task, run :: task in TasksOf(After(events), run) <==> Outstanding(events, task, run)
    ensures forall task :: task in After(events).taskRuns ==>
      exists i :: 0 <= i < |events| && events[i].Sent? && events[i].task == task
  {
    if events != [] {
      var n := |events| - 1;
      var init, e := events[..n], events[n];
      assert events == init + [e];
      HoldsOutstanding(init);
      var x := After(init);
      match e {
        case Sent(task, run) =>
          assert task !in x.taskRuns;
          TrackKeeps(x, task, run);
        case Over(task) => UntrackKeeps(x, task);
      }
      forall task, run ensures task in TasksOf(After(events), run) <==> Outstanding(events, task, run) {
        OutstandingStep(init, e, task, run);
      }
    }
  }

  /** Once every task that was sent is over, nothing is left in either map. */
  lemma EmptyInTheEnd(events: seq<Event>)
    requires FreshTasks(events)
    ensures After(events) == Index(map[], map[]) <==> forall task, run :: !Outstanding(events, task, run)
  {
    HoldsOutstanding(events);
    var x := After(events);
    forall task | task in x.taskRuns ensures Outstanding(events, task, x.taskRuns[task]) {
      assert task in TasksOf(x, x.taskRuns[task]);
    }
    forall run | run in x.runTasks ensures exists task :: Outstanding(events, task, run) {
      var task :| task in TasksOf(x, run);
      assert Outstanding(events, task, run);
    }
    if forall task, run :: !Outstanding(events, task, run) {
      assert x.taskRuns == map[] && x.runTasks == map[];
    } else {
      var task, run :| Outstanding(events, task, run);
      assert task in TasksOf(x, run);
    }
  }

  class Tracker {
    var taskRuns: map<string, int>
    var runTasks: map<int, set<string>>

    ghost function Contents(): Index
      reads this
    {
      Index(taskRuns, runTasks)
    }

    constructor ()
      ensures Contents() == After([])
    {
      taskRuns, runTasks := map[], map[];
    }

    method TrackTask(task: string, run: int)
      modifies this
      ensures Contents() == Tracked(old(Contents()), task, run)
    {
      if task == "" || run <= 0 {
        return;
      }
      taskRuns := taskRuns[task := run];
      if run !in runTasks {
        runTasks := runTasks[run := {}];
      }
      runTasks := runTasks[run := runTasks[run] + {task}];
    }

    method UntrackTask(task: string)
      modifies this
      ensures Contents() == Untracked(old(Contents()), task)
    {
      if task !in taskRuns {
        return;
      }
      var run := taskRuns[task];
      taskRuns := taskRuns - {task};
      if run in runTasks {
        runTasks := runTasks[run := runTasks[run] - {task}];
        if runTasks[run] == {} {
          runTasks := runTasks - {run};
        }
      }
    }

    /** The cancellations offered to the workers: every outstanding task of the run, to every worker. */
    method CancelRun(run: int, workers: set<string>) returns (offered: set<(string, string)>)
      ensures forall w, t :: (w, t) in offered <==> w in workers && t in TasksOf(Contents(), run)
    {
      offered := {};
      if run !in runTasks {
        return;
      }
      var todo := workers;
      while todo != {}
        invariant todo <= workers
        invariant forall w, t :: (w, t) in offered <==> w in workers - todo && t in TasksOf(Contents(), run)
        decreases todo
      {
        var w :| w in todo;
        offered := offered + set t | t in runTasks[run] :: (w, t);
        todo := todo - {w};
      }
    }
  }
}
