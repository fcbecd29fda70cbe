/**
 * Pairing probe replies with the calls that wait for them. A call registers itself in `pending`,
 * sends, and waits on a channel of capacity one; a delivery first takes the call out of `pending`
 * under the lock and only then writes the channel; every return path clears `pending` once more.
 */
module ProbeProtocol {
  import opened Prelude

  type RequestId = string

  datatype Reply = Reply(request: RequestId, payload: string)

  datatype Outcome = Answered(reply: Reply) | TimedOut | Gone | Cancelled

  /** `Returning`: the select has been decided, the deferred cleanup has not run. */
  datatype Phase = Sending | Waiting | Returning(outcome: Outcome) | Done(outcome: Outcome)

  datatype Call = Call(phase: Phase, channel: Option<Reply>)

  /** `taken` holds the deliveries between their two halves; `accepted` is history. */
  datatype Hub = Hub(pending: set<RequestId>, calls: map<RequestId, Call>, taken: seq<Reply>,
                     accepted: map<RequestId, Reply>)

  const START := Hub({}, map[], [], map[])

  datatype Step =
    | Register(id: RequestId)
    | SendOk(id: RequestId)
    | SendGivenUp(id: RequestId)
    | Take(reply: Reply)
    | Put(k: nat)
    | Receive(id: RequestId)
    | Expire(id: RequestId)
    | GiveUp(id: RequestId)
    | Cleanup(id: RequestId)

  function InPhase(h: Hub, id: RequestId, p: Phase): bool {
    id in h.calls && h.calls[id].phase == p
  }

  function WithPhase(h: Hub, id: RequestId, p: Phase): Hub
    requires id in h.calls
  {
    h.(calls := h.calls[id := h.calls[id].(phase := p)])
  }

  /** When a step can happen. `Put` blocks while the channel is full. */
  predicate Enabled(h: Hub, s: Step) {
    match s
    case Register(id) => id !in h.calls
    case SendOk(id) => InPhase(h, id, Sending)
    case SendGivenUp(id) => InPhase(h, id, Sending)
    case Take(_) => true
    case Put(k) => k < |h.taken| && h.taken[k].request in h.calls && h.calls[h.taken[k].request].channel.None?
    case Receive(id) => InPhase(h, id, Waiting) && h.calls[id].channel.Some?
    case Expire(id) => InPhase(h, id, Waiting)
    case GiveUp(id) => InPhase(h, id, Waiting)
    case Cleanup(id) => id in h.calls && h.calls[id].phase.Returning?
  }

  function Next(h: Hub, s: Step): Hub
    requires Enabled(h, s)
  {
    match s
    case Register(id) => h.(pending := h.pending + {id}, calls := h.calls[id := Call(Sending, None)])
    case SendOk(id) => WithPhase(h, id, Waiting)
    case SendGivenUp(id) => WithPhase(h, id, Returning(Gone))
    case Take(reply) =>
      // A late or repeated reply finds nothing pending and is dropped.
      if reply.request in h.pending
      then h.(pending := h.pending - {reply.request}, taken := h.taken + [reply],
              accepted := h.accepted[reply.request := reply])
      else h
    case Put(k) =>
      var reply := h.taken[k];
      h.(taken := h.taken[..k] + h.taken[k + 1..],
         calls := h.calls[reply.request := h.calls[reply.request].(channel := Some(reply))])
    case Receive(id) =>
      h.(calls := h.calls[id := Call(Returning(Answered(h.calls[id].channel.value)), None)])
    case Expire(id) => WithPhase(h, id, Returning(TimedOut))
    case GiveUp(id) => WithPhase(h, id, Returning(Cancelled))
    case Cleanup(id) => WithPhase(h.(pending := h.pending - {id}), id, Done(h.calls[id].phase.outcome))
  }

  /** Some delivery for `id` is between its two halves. */
  predicate UnderWay(h: Hub, id: RequestId) {
    exists k :: 0 <= k < |h.taken| && h.taken[k].request == id
  }

  predicate AnsweredCall(c: Call) {
    (c.phase.Returning? || c.phase.Done?) && c.phase.outcome.Answered?
  }

  ghost predicate CallOk(h: Hub, id: RequestId)
    requires id in h.calls
  {
    var c := h.calls[id];
    && (id in h.pending <==> !c.phase.Done? && id !in h.accepted)
    && (c.channel.Some? ==> id in h.accepted && c.channel.value == h.accepted[id] && !AnsweredCall(c))
    && (AnsweredCall(c) ==> id in h.accepted && c.phase.outcome.reply == h.accepted[id])
    && (UnderWay(h, id) ==> c.channel.None? && !AnsweredCall(c))
    && (id in h.accepted ==> UnderWay(h, id) || c.channel.Some? || AnsweredCall(c))
  }

  ghost predicate Inv(h: Hub) {
    && h.pending <= h.calls.Keys && h.accepted.Keys <= h.calls.Keys
    && (forall id {:trigger CallOk(h, id)} :: id in h.calls ==> CallOk(h, id))
    && (forall id :: id in h.accepted ==> h.accepted[id].request == id)
    && (forall k :: 0 <= k < |h.taken| ==> h.taken[k].request in h.accepted && h.accepted[h.taken[k].request] == h.taken[k])
    && (forall j, k :: 0 <= j < k < |h.taken| ==> h.taken[j].request != h.taken[k].request)
  }

  lemma StepKeepsInv(h: Hub, s: Step)
    requires Inv(h) && Enabled(h, s)
    ensures Inv(Next(h, s))
  {
    var g := Next(h, s);
    match s {
      case Put(k) => PutKeepsInv(h, k);
      case Take(reply) => TakeKeepsInv(h, reply);
      case _ =>
        assert g.taken == h.taken;
        forall x | x in g.calls
          ensures CallOk(g, x)
        {
          assert x in h.calls ==> CallOk(h, x);
          assert UnderWay(g, x) <==> UnderWay(h, x);
        }
    }
  }

  lemma TakeKeepsInv(h: Hub, reply: Reply)
    requires Inv(h)
    ensures Inv(Next(h, Take(reply)))
  {
    var g := Next(h, Take(reply));
    if reply.request in h.pending {
      assert CallOk(h, reply.request);
      forall x | x in g.calls
        ensures CallOk(g, x)
      {
        assert CallOk(h, x);
        if x == reply.request {
          assert g.taken[|h.taken|] == reply;
        } else {
          UnderWayAppend(h.taken, reply, x);
        }
      }
    }
  }

  lemma UnderWayAppend(taken: seq<Reply>, reply: Reply, x: RequestId)
    requires reply.request != x
    ensures (exists k :: 0 <= k < |taken + [reply]| && (taken + [reply])[k].request == x)
            <==> exists k :: 0 <= k < |taken| && taken[k].request == x
  {
    if k :| 0 <= k < |taken| && taken[k].request == x {
      assert (taken + [reply])[k].request == x;
    }
  }

  function Without(taken: seq<Reply>, k: nat): (rest: seq<Reply>)
    requires k < |taken|
    ensures |rest| == |taken| - 1
    ensures forall j :: 0 <= j < |rest| ==> rest[j] == taken[if j < k then j else j + 1]
  {
    taken[..k] + taken[k + 1..]
  }

  lemma UnderWayWithout(h: Hub, k: nat, x: RequestId, g: Hub)
    requires k < |h.taken| && g.taken == Without(h.taken, k)
    requires forall i, j :: 0 <= i < j < |h.taken| ==> h.taken[i].request != h.taken[j].request
    ensures UnderWay(g, x) <==> UnderWay(h, x) && x != h.taken[k].request
  {
    if UnderWay(h, x) && x != h.taken[k].request {
      var j :| 0 <= j < |h.taken| && h.taken[j].request == x;
      assert g.taken[if j < k then j else j - 1].request == x;
    }
  }

  lemma PutKeepsInv(h: Hub, k: nat)
    requires Inv(h) && Enabled(h, Put(k))
    ensures Inv(Next(h, Put(k)))
  {
    var g := Next(h, Put(k));
    assert g.taken == Without(h.taken, k);
    assert h.taken[k].request in h.accepted;
    forall x | x in g.calls
      ensures CallOk(g, x)
    {
      assert CallOk(h, x);
      UnderWayWithout(h, k, x, g);
      assert x == h.taken[k].request ==> UnderWay(h, x);
    }
  }

  // ---- Over all interleavings ----

  ghost predicate Runs(hs: seq<Hub>, steps: seq<Step>) {
    && |hs| == |steps| + 1 && hs[0] == START
    && forall k :: 0 <= k < |steps| ==> Enabled(hs[k], steps[k]) && hs[k + 1] == Next(hs[k], steps[k])
  }

  lemma {:induction false} AlwaysInv(hs: seq<Hub>, steps: seq<Step>, n: nat)
    requires Runs(hs, steps) && n <= |steps|
    ensures Inv(hs[n])
  {
    hide Next;
    if n > 0 {
      AlwaysInv(hs, steps, n - 1);
      StepKeepsInv(hs[n - 1], steps[n - 1]);
    }
  }

  /** In every reachable state the second half of a delivery can go ahead: the channel has room. */
  lemma PutNeverBlocks(hs: seq<Hub>, steps: seq<Step>, n: nat, k: nat)
    requires Runs(hs, steps) && n <= |steps| && k < |hs[n].taken|
    ensures Enabled(hs[n], Put(k))
  {
    AlwaysInv(hs, steps, n);
    var id := hs[n].taken[k].request;
    assert CallOk(hs[n], id);
    assert UnderWay(hs[n], id);
  }

  /** `pending` is exactly the calls that have not finished and whose reply has not been taken. */
  lemma PendingIsUndelivered(hs: seq<Hub>, steps: seq<Step>, n: nat)
    requires Runs(hs, steps) && n <= |steps|
    ensures hs[n].pending == set id | id in hs[n].calls && !hs[n].calls[id].phase.Done? && id !in hs[n].accepted
  {
    AlwaysInv(hs, steps, n);
    forall id | id in hs[n].calls
      ensures id in hs[n].pending <==> !hs[n].calls[id].phase.Done? && id !in hs[n].accepted
    {
      assert CallOk(hs[n], id);
    }
  }

  lemma AcceptedGrows(h: Hub, s: Step)
    requires Inv(h) && Enabled(h, s)
    ensures forall id :: id in h.accepted ==> id in Next(h, s).accepted && Next(h, s).accepted[id] == h.accepted[id]
    ensures forall id :: id in Next(h, s).accepted && id !in h.accepted ==> s == Take(Next(h, s).accepted[id])
  {
    if s.Take? && s.reply.request in h.pending {
      assert CallOk(h, s.reply.request);
    }
  }

  /** What has been accepted for a request was delivered at one moment, and stays. */
  lemma {:induction false} AcceptedOnce(hs: seq<Hub>, steps: seq<Step>, n: nat, id: RequestId) returns (k: nat)
    requires Runs(hs, steps) && n <= |steps| && id in hs[n].accepted
    ensures k < n && steps[k] == Take(hs[n].accepted[id])
    ensures id !in hs[k].accepted && id in hs[k].pending
    ensures forall j :: k < j <= n ==> id in hs[j].accepted && hs[j].accepted[id] == hs[n].accepted[id]
  {
    AlwaysInv(hs, steps, n - 1);
    AcceptedGrows(hs[n - 1], steps[n - 1]);
    if id in hs[n - 1].accepted {
      k := AcceptedOnce(hs, steps, n - 1, id);
    } else {
      k := n - 1;
      assert hs[n] == Next(hs[n - 1], steps[n - 1]);
    }
  }

  /**
   * A call that returns a reply returns one addressed to it, which was delivered earlier; and it is
   * the only delivery for this request that was ever let through, so no reply wakes two callers.
   */
  lemma AnsweredByOwnReply(hs: seq<Hub>, steps: seq<Step>, n: nat, id: RequestId) returns (k: nat)
    requires Runs(hs, steps) && n <= |steps| && id in hs[n].calls && AnsweredCall(hs[n].calls[id])
    ensures hs[n].calls[id].phase.outcome.reply.request == id
    ensures k < n && steps[k] == Take(hs[n].calls[id].phase.outcome.reply)
    ensures forall j :: 0 <= j < n && j != k && steps[j].Take? && steps[j].reply.request == id ==>
              id !in hs[j].pending
  {
    AlwaysInv(hs, steps, n);
    assert CallOk(hs[n], id);
    k := AcceptedOnce(hs, steps, n, id);
    forall j | 0 <= j < n && j != k && steps[j].Take? && steps[j].reply.request == id
      ensures id !in hs[j].pending
    {
      AlwaysInv(hs, steps, j);
      if id in hs[j].pending {
        assert CallOk(hs[j], id);
        assert id !in hs[j].accepted;
        if j > k {
          assert false;
        } else {
          assert id in hs[j + 1].accepted;
          AcceptedStays(hs, steps, j + 1, k, id);
          assert false;
        }
      }
    }
  }

  lemma {:induction false} AcceptedStays(hs: seq<Hub>, steps: seq<Step>, i: nat, j: nat, id: RequestId)
    requires Runs(hs, steps) && i <= j <= |steps| && id in hs[i].accepted
    ensures id in hs[j].accepted
    decreases j - i
  {
    if i < j {
      AcceptedStays(hs, steps, i, j - 1, id);
      AlwaysInv(hs, steps, j - 1);
      AcceptedGrows(hs[j - 1], steps[j - 1]);
    }
  }

  // ---- Why a call returns ----

  predicate Decides(s: Step, id: RequestId) {
    s in {Receive(id), Expire(id), GiveUp(id), SendGivenUp(id)}
  }

  /** The step that gives a call this outcome. */
  predicate Causes(s: Step, id: RequestId, o: Outcome) {
    match o
    case Answered(_) => s == Receive(id)
    case TimedOut => s == Expire(id)
    case Cancelled => s == GiveUp(id)
    case Gone => s == SendGivenUp(id)
  }

  predicate Open(h: Hub, id: RequestId) {
    id !in h.calls || h.calls[id].phase in {Sending, Waiting}
  }

  lemma StepOpens(h: Hub, s: Step, id: RequestId)
    requires Inv(h) && Enabled(h, s)
    ensures Open(Next(h, s), id) <==> Open(h, id) && !Decides(s, id)
  {
  }

  lemma StepOutcome(h: Hub, s: Step, id: RequestId)
    requires Inv(h) && Enabled(h, s) && !Open(Next(h, s), id)
    ensures var after := Next(h, s).calls[id].phase;
            if Open(h, id) then
              && after.Returning? && Causes(s, id, after.outcome) && id in h.calls
              && (after.outcome.Answered? ==> h.calls[id].channel == Some(after.outcome.reply))
            else
              && (h.calls[id].phase.Returning? || h.calls[id].phase.Done?) && (after.Returning? || after.Done?)
              && after.outcome == h.calls[id].phase.outcome
  {
  }

  lemma {:induction false} NothingDecided(hs: seq<Hub>, steps: seq<Step>, n: nat, id: RequestId)
    requires Runs(hs, steps) && n <= |steps| && Open(hs[n], id)
    ensures forall j :: 0 <= j < n ==> !Decides(steps[j], id)
  {
    hide Next, Enabled, Decides, Open;
    if n > 0 {
      AlwaysInv(hs, steps, n - 1);
      StepOpens(hs[n - 1], steps[n - 1], id);
      NothingDecided(hs, steps, n - 1, id);
    }
  }

  /** A call that has been decided was decided once, by the step its outcome stands for. */
  lemma {:induction false} OutcomeHasCause(hs: seq<Hub>, steps: seq<Step>, n: nat, id: RequestId) returns (k: nat)
    requires Runs(hs, steps) && n <= |steps| && !Open(hs[n], id)
    ensures hs[n].calls[id].phase.Returning? || hs[n].calls[id].phase.Done?
    ensures var o := hs[n].calls[id].phase.outcome;
            && k < n && Decides(steps[k], id) && Causes(steps[k], id, o)
            && (forall j :: 0 <= j < n && Decides(steps[j], id) ==> j == k)
            && (o.Answered? ==> id in hs[k].calls && hs[k].calls[id].channel == Some(o.reply))
  {
    AlwaysInv(hs, steps, n - 1);
    StepOpens(hs[n - 1], steps[n - 1], id);
    StepOutcome(hs[n - 1], steps[n - 1], id);
    hide Next, Enabled, Inv;
    if Open(hs[n - 1], id) {
      k := n - 1;
      NothingDecided(hs, steps, n - 1, id);
    } else {
      k := OutcomeHasCause(hs, steps, n - 1, id);
      assert !Decides(steps[n - 1], id) by {
        StillClosed(hs[n - 1], steps[n - 1], id);
      }
    }
  }

  /** Once decided, no step decides again. */
  lemma StillClosed(h: Hub, s: Step, id: RequestId)
    requires Enabled(h, s) && !Open(h, id)
    ensures !Decides(s, id)
  {
  }
}
