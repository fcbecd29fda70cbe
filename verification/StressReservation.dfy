/**
 * Exclusive use of a worker by one stress task: the flag taken by compare-and-swap, the send that
 * may fail, and the report that gives the worker back.
 */
module StressReservation {
  type Worker = string
  type Task = int

  /** `sending`: flag taken, send not decided. `outstanding`: delivered, no report yet. */
  datatype Pool = Pool(flags: set<Worker>, sending: map<Task, Worker>, outstanding: map<Task, Worker>)

  datatype Step =
    | Reserve(task: Task, worker: Worker)
    | SendOk(task: Task)
    | SendFailed(task: Task)
    | Report(task: Task, worker: Worker)

  const IDLE := Pool({}, map[], map[])

  function Next(p: Pool, s: Step): Pool {
    match s
    case Reserve(task, worker) =>
      if worker in p.flags then p else p.(flags := p.flags + {worker}, sending := p.sending[task := worker])
    case SendOk(task) =>
      if task in p.sending
      then p.(sending := p.sending - {task}, outstanding := p.outstanding[task := p.sending[task]]) else p
    case SendFailed(task) =>
      if task in p.sending then p.(flags := p.flags - {p.sending[task]}, sending := p.sending - {task}) else p
    case Report(task, worker) =>
      p.(flags := p.flags - {worker},
         outstanding := if task in p.outstanding && p.outstanding[task] == worker then p.outstanding - {task}
                        else p.outstanding)
  }

  /** Task ids come from `NextID`. */
  predicate Fresh(p: Pool, s: Step) {
    s.Reserve? ==> s.task !in p.sending && s.task !in p.outstanding
  }

  predicate Holds(p: Pool, t: Task, w: Worker) {
    (t in p.sending && p.sending[t] == w) || (t in p.outstanding && p.outstanding[t] == w)
  }

  /** A worker is flagged exactly while it has a stress task, and never has two. */
  ghost predicate Exclusive(p: Pool) {
    && p.sending.Keys !! p.outstanding.Keys
    && (forall t, w :: Holds(p, t, w) ==> w in p.flags)
    && (forall w :: w in p.flags ==> exists t :: Holds(p, t, w))
    && (forall t, u, w :: Holds(p, t, w) && Holds(p, u, w) ==> t == u)
  }

  /** A report from a worker busy with some other task. */
  predicate Stray(p: Pool, s: Step) {
    s.Report? && s.worker in p.flags && !(s.task in p.outstanding && p.outstanding[s.task] == s.worker)
  }

  /** Every step keeps exclusivity, except - exactly - a stray report, which frees a busy worker. */
  lemma StepKeepsExclusive(p: Pool, s: Step)
    requires Exclusive(p) && Fresh(p, s)
    ensures Exclusive(Next(p, s)) <==> !Stray(p, s)
  {
    var q := Next(p, s);
    if Stray(p, s) {
      var t :| Holds(p, t, s.worker);
      assert Holds(q, t, s.worker);
    } else {
      forall t, w | Holds(q, t, w)
        ensures w in q.flags
        ensures Holds(p, t, w) || (s.Reserve? && s.worker !in p.flags && t == s.task && w == s.worker)
      {
        match s
        case Reserve(task, worker) =>
          assert (worker !in p.flags && t == task && w == worker) || Holds(p, t, w);
        case SendOk(task) =>
          assert Holds(p, t, w);
        case SendFailed(task) =>
          assert Holds(p, t, w);
          assert task in p.sending ==> Holds(p, task, p.sending[task]);
        case Report(task, worker) =>
          assert Holds(p, t, w);
          assert worker in p.flags ==> Holds(p, task, worker);
      }
      forall w | w in q.flags
        ensures exists t :: Holds(q, t, w)
      {
        if w in p.flags {
          var t :| Holds(p, t, w);
          assert Holds(q, t, w);
        } else {
          assert Holds(q, s.task, w);
        }
      }
    }
  }

  function After(steps: seq<Step>, k: nat): Pool
    requires k <= |steps|
  {
    if k == 0 then IDLE else Next(After(steps, k - 1), steps[k - 1])
  }

  /** Any interleaving in which each delivered task is reported once, by its worker, stays exclusive. */
  lemma {:induction false} AlwaysExclusive(steps: seq<Step>, k: nat)
    requires k <= |steps|
    requires forall i :: 0 <= i < k ==> Fresh(After(steps, i), steps[i]) && !Stray(After(steps, i), steps[i])
    ensures Exclusive(After(steps, k))
  {
    hide Next;
    if k > 0 {
      AlwaysExclusive(steps, k - 1);
      StepKeepsExclusive(After(steps, k - 1), steps[k - 1]);
    }
  }

  /** Two runs racing for one worker: the second reservation changes nothing until the first task is over. */
  lemma SecondReservationRefused(p: Pool, task: Task, worker: Worker)
    requires Exclusive(p) && exists t :: Holds(p, t, worker)
    ensures Next(p, Reserve(task, worker)) == p
  {
  }

  /** A report sent twice, the worker being reserved for another run in between: the second frees it. */
  lemma RepeatedReportFrees(task: Task, other: Task, worker: Worker)
    requires task != other
    ensures var steps := [Reserve(task, worker), SendOk(task), Report(task, worker),
                          Reserve(other, worker), SendOk(other), Report(task, worker)];
            && Exclusive(After(steps, 5)) && Stray(After(steps, 5), steps[5])
            && Holds(After(steps, 6), other, worker) && worker !in After(steps, 6).flags
  {
    var steps := [Reserve(task, worker), SendOk(task), Report(task, worker),
                  Reserve(other, worker), SendOk(other), Report(task, worker)];
    assert After(steps, 0) == IDLE;
    assert After(steps, 1) == Pool({worker}, map[task := worker], map[]);
    assert After(steps, 2) == Pool({worker}, map[], map[task := worker]);
    assert After(steps, 3) == IDLE;
    assert After(steps, 4) == Pool({worker}, map[other := worker], map[]);
    assert After(steps, 5) == Pool({worker}, map[], map[other := worker]);
    assert After(steps, 6) == Pool({}, map[], map[other := worker]);
    assert Holds(After(steps, 5), other, worker);
  }
}
