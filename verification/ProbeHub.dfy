/** The probe session registry: who may open a session, on which worker, and when sessions go. */
module ProbeHub {
  import opened Prelude

  /** One session object; everything but its last activity is fixed when it is opened. */
  class Session {
    const id: string
    const tenant: int
    const worker: string
    const created: int
    var lastActive: int

    constructor (id: string, tenant: int, worker: string, now: int)
      ensures this.id == id && this.tenant == tenant && this.worker == worker && created == now && lastActive == now
    {
      this.id, this.tenant, this.worker, created, lastActive := id, tenant, worker, now, now;
    }
  }

  datatype Config = Config(maxPerTenant: int, maxPerWorker: int, idleTtl: int, maxLifetime: int)

  datatype Candidate = Candidate(id: string, capabilities: seq<int>, inStress: bool, tenant: int, load: int)

  datatype Error = SessionGone | LimitReached | NoWorker

  const PLAYWRIGHT: int := 3

  function OfTenant(sessions: map<string, Session>, tenant: int): set<string> {
    set id | id in sessions && sessions[id].tenant == tenant
  }

  function OnWorker(sessions: map<string, Session>, worker: string): set<string> {
    set id | id in sessions && sessions[id].worker == worker
  }

  /** Online, able, not under stress, of the tenant or shared, and not full. */
  predicate Eligible(sessions: map<string, Session>, cfg: Config, tenant: int, w: Candidate) {
    && PLAYWRIGHT in w.capabilities && !w.inStress && (w.tenant == 0 || w.tenant == tenant)
    && |OnWorker(sessions, w.id)| < cfg.maxPerWorker
  }

  /** The first of the least loaded eligible workers. */
  predicate Best(sessions: map<string, Session>, cfg: Config, tenant: int, ws: seq<Candidate>, i: int) {
    && 0 <= i < |ws| && Eligible(sessions, cfg, tenant, ws[i])
    && forall j :: 0 <= j < |ws| && Eligible(sessions, cfg, tenant, ws[j]) ==>
         ws[i].load <= ws[j].load && (j < i ==> ws[i].load < ws[j].load)
  }

  predicate TenantWithin(sessions: map<string, Session>, cfg: Config, t: int) {
    |OfTenant(sessions, t)| > 0 ==> |OfTenant(sessions, t)| <= cfg.maxPerTenant
  }

  predicate WorkerWithin(sessions: map<string, Session>, cfg: Config, w: string) {
    |OnWorker(sessions, w)| > 0 ==> |OnWorker(sessions, w)| <= cfg.maxPerWorker
  }

  ghost predicate WithinLimits(sessions: map<string, Session>, cfg: Config) {
    && (forall t :: TenantWithin(sessions, cfg, t))
    && (forall w :: WorkerWithin(sessions, cfg, w))
  }

  lemma FewerIsWithin(sessions: map<string, Session>, rest: map<string, Session>, cfg: Config)
    requires WithinLimits(sessions, cfg)
    requires forall id :: id in rest ==> id in sessions && rest[id] == sessions[id]
    ensures WithinLimits(rest, cfg)
  {
    forall t
      ensures TenantWithin(rest, cfg, t)
    {
      assert TenantWithin(sessions, cfg, t);
      SubsetSize(OfTenant(rest, t), OfTenant(sessions, t));
    }
    forall w
      ensures WorkerWithin(rest, cfg, w)
    {
      assert WorkerWithin(sessions, cfg, w);
      SubsetSize(OnWorker(rest, w), OnWorker(sessions, w));
    }
  }

  lemma TenantCount(sessions: map<string, Session>, id: string, s: Session, t: int)
    requires id !in sessions
    ensures |OfTenant(sessions[id := s], t)| == |OfTenant(sessions, t)| + if t == s.tenant then 1 else 0
  {
    assert OfTenant(sessions[id := s], t) == OfTenant(sessions, t) + if t == s.tenant then {id} else {};
  }

  lemma WorkerCount(sessions: map<string, Session>, id: string, s: Session, w: string)
    requires id !in sessions
    ensures |OnWorker(sessions[id := s], w)| == |OnWorker(sessions, w)| + if w == s.worker then 1 else 0
  {
    assert OnWorker(sessions[id := s], w) == OnWorker(sessions, w) + if w == s.worker then {id} else {};
  }

  lemma OneMoreIsWithin(sessions: map<string, Session>, id: string, s: Session, cfg: Config)
    requires WithinLimits(sessions, cfg) && id !in sessions
    requires |OfTenant(sessions, s.tenant)| < cfg.maxPerTenant && |OnWorker(sessions, s.worker)| < cfg.maxPerWorker
    ensures WithinLimits(sessions[id := s], cfg)
  {
    var more := sessions[id := s];
    forall t
      ensures TenantWithin(more, cfg, t)
    {
      assert TenantWithin(sessions, cfg, t);
      TenantCount(sessions, id, s, t);
    }
    forall w
      ensures WorkerWithin(more, cfg, w)
    {
      assert WorkerWithin(sessions, cfg, w);
      WorkerCount(sessions, id, s, w);
    }
  }

  /** Why a new or reused session is refused; None when it may be used. */
  function OpenRefusal(sessions: map<string, Session>, cfg: Config, tenant: int, id: string, ws: seq<Candidate>): Option<Error> {
    if id in sessions then (if sessions[id].tenant == tenant then None else Some(SessionGone))
    else if |OfTenant(sessions, tenant)| >= cfg.maxPerTenant then Some(LimitReached)
    else if forall i :: 0 <= i < |ws| ==> !Eligible(sessions, cfg, tenant, ws[i]) then Some(NoWorker)
    else None
  }

  /** A worker can take a session: Playwright is capability 3, a worker without a tenant is shared. */
  predicate CanTake(sessions: map<string, Session>, cfg: Config, tenant: int, w: Candidate) {
    && 3 in w.capabilities && !w.inStress && w.tenant in {0, tenant}
    && |set id | id in sessions && sessions[id].worker == w.id| < cfg.maxPerWorker
  }

  /**
   * A session opens exactly when it is there and the tenant's own, or when it is not there, the tenant
   * has fewer than its limit, and some worker can take it; and what it is refused for otherwise. The
   * worker that gets it is the least loaded of those, and of several the first.
   */
  lemma OpensExactly(sessions: map<string, Session>, cfg: Config, tenant: int, id: string, ws: seq<Candidate>)
    ensures forall i :: 0 <= i < |ws| ==> (Eligible(sessions, cfg, tenant, ws[i]) <==> CanTake(sessions, cfg, tenant, ws[i]))
    ensures forall i :: Best(sessions, cfg, tenant, ws, i) <==>
              && 0 <= i < |ws| && CanTake(sessions, cfg, tenant, ws[i])
              && (forall j :: 0 <= j < |ws| && CanTake(sessions, cfg, tenant, ws[j]) ==> ws[i].load <= ws[j].load)
              && forall j :: 0 <= j < i && CanTake(sessions, cfg, tenant, ws[j]) ==> ws[i].load < ws[j].load
    ensures var mine := set s | s in sessions && sessions[s].tenant == tenant;
            && (OpenRefusal(sessions, cfg, tenant, id, ws) == None <==>
                  if id in sessions then sessions[id].tenant == tenant
                  else |mine| < cfg.maxPerTenant && exists i :: 0 <= i < |ws| && CanTake(sessions, cfg, tenant, ws[i]))
            && (OpenRefusal(sessions, cfg, tenant, id, ws) == Some(SessionGone) <==> id in sessions && id !in mine)
            && (OpenRefusal(sessions, cfg, tenant, id, ws) == Some(LimitReached) <==>
                  id !in sessions && |mine| >= cfg.maxPerTenant)
  {
    var mine := set s | s in sessions && sessions[s].tenant == tenant;
    assert mine == OfTenant(sessions, tenant);
    forall i | 0 <= i < |ws|
      ensures Eligible(sessions, cfg, tenant, ws[i]) <==> CanTake(sessions, cfg, tenant, ws[i])
    {
      assert OnWorker(sessions, ws[i].id) == set id | id in sessions && sessions[id].worker == ws[i].id;
    }
  }

  class Hub {
    const cfg: Config
    var sessions: map<string, Session>
    var pending: set<string>

    /** Sessions are filed under their own id, and no limit is exceeded. */
    ghost predicate Valid()
      reads this
    {
      && (forall id :: id in sessions ==> sessions[id].id == id)
      && WithinLimits(sessions, cfg)
    }

    constructor (cfg: Config)
      ensures Valid() && this.cfg == cfg && sessions == map[] && pending == {}
    {
      this.cfg := cfg;
      sessions, pending := map[], {};
    }

    method CountTenant(tenant: int) returns (n: nat)
      ensures n == |OfTenant(sessions, tenant)|
    {
      n := 0;
      var todo := sessions.Keys;
      while todo != {}
        invariant todo <= sessions.Keys
        invariant n == |OfTenant(sessions, tenant) - todo|
        decreases |todo|
      {
        var id :| id in todo;
        var seen := OfTenant(sessions, tenant) - todo;
        if sessions[id].tenant == tenant {
          assert OfTenant(sessions, tenant) - (todo - {id}) == seen + {id};
          n := n + 1;
        } else {
          assert OfTenant(sessions, tenant) - (todo - {id}) == seen;
        }
        todo := todo - {id};
      }
      assert OfTenant(sessions, tenant) - todo == OfTenant(sessions, tenant);
    }

    method CountOn(worker: string) returns (n: nat)
      ensures n == |OnWorker(sessions, worker)|
    {
      n := 0;
      var todo := sessions.Keys;
      while todo != {}
        invariant todo <= sessions.Keys
        invariant n == |OnWorker(sessions, worker) - todo|
        decreases |todo|
      {
        var id :| id in todo;
        var seen := OnWorker(sessions, worker) - todo;
        if sessions[id].worker == worker {
          assert OnWorker(sessions, worker) - (todo - {id}) == seen + {id};
          n := n + 1;
        } else {
          assert OnWorker(sessions, worker) - (todo - {id}) == seen;
        }
        todo := todo - {id};
      }
      assert OnWorker(sessions, worker) - todo == OnWorker(sessions, worker);
    }

    /** The least loaded worker that can take the session, found in one pass; None iff there is none. */
    method PickWorker(tenant: int, ws: seq<Candidate>) returns (r: Option<string>)
      ensures r.None? <==> forall i :: 0 <= i < |ws| ==> !Eligible(sessions, cfg, tenant, ws[i])
      ensures r.Some? ==> exists i :: Best(sessions, cfg, tenant, ws, i) && r.value == ws[i].id
    {
      var best := -1;
      for k := 0 to |ws|
        invariant best == -1 ==> forall j :: 0 <= j < k ==> !Eligible(sessions, cfg, tenant, ws[j])
        invariant best != -1 ==> 0 <= best < k && Best(sessions, cfg, tenant, ws[..k], best)
      {
        var w := ws[k];
        assert forall j :: 0 <= j < k ==> ws[..k][j] == ws[j] && ws[..k + 1][j] == ws[j];
        if PLAYWRIGHT !in w.capabilities || w.inStress {
          continue;
        }
        if w.tenant != 0 && w.tenant != tenant {
          continue;
        }
        if best == -1 || w.load < ws[best].load {
          var n := CountOn(w.id);
          if n >= cfg.maxPerWorker {
            continue;
          }
          best := k;
        }
      }
      assert ws[..|ws|] == ws;
      if best == -1 {
        return None;
      }
      return Some(ws[best].id);
    }

    /** The locked part of opening a session: reuse, refuse, or register. */
    method Open(tenant: int, id: string, ws: seq<Candidate>, now: int) returns (r: Option<Error>)
      requires Valid()
      modifies this`sessions
      ensures Valid()
      ensures r == OpenRefusal(old(sessions), cfg, tenant, id, ws)
      ensures r.Some? || id in old(sessions) ==> sessions == old(sessions)
      ensures r.None? && id !in old(sessions) ==>
                && id in sessions && fresh(sessions[id]) && sessions == old(sessions)[id := sessions[id]]
                && sessions[id].tenant == tenant && sessions[id].created == now && sessions[id].lastActive == now
                && exists i :: Best(old(sessions), cfg, tenant, ws, i) && sessions[id].worker == ws[i].id
    {
      if id in sessions {
        if sessions[id].tenant != tenant {
          return Some(SessionGone);
        }
        return None;
      }
      var n := CountTenant(tenant);
      if n >= cfg.maxPerTenant {
        return Some(LimitReached);
      }
      var worker := PickWorker(tenant, ws);
      if worker.None? {
        return Some(NoWorker);
      }
      var s := new Session(id, tenant, worker.value, now);
      OneMoreIsWithin(sessions, id, s, cfg);
      sessions := sessions[id := s];
      return None;
    }

    /** The first step of closing: a missing session counts as closed, another tenant's is out of reach. */
    method BeginClose(tenant: int, id: string) returns (proceed: bool, e: Option<Error>)
      requires Valid()
      ensures proceed <==> id in sessions && sessions[id].tenant == tenant
      ensures e == if id in sessions && sessions[id].tenant != tenant then Some(SessionGone) else None
    {
      if id !in sessions {
        return false, None;
      }
      if sessions[id].tenant != tenant {
        return false, Some(SessionGone);
      }
      return true, None;
    }

    /** The last step of closing: the entry goes, whatever the close command came to. */
    method Forget(id: string)
      requires Valid()
      modifies this`sessions
      ensures Valid() && sessions == old(sessions) - {id}
    {
      FewerIsWithin(sessions, sessions - {id}, cfg);
      sessions := sessions - {id};
    }

    /** A disconnected worker takes exactly its sessions with it. */
    method OnWorkerDisconnect(worker: string)
      requires Valid()
      modifies this`sessions
      ensures Valid() && sessions == old(sessions) - OnWorker(old(sessions), worker)
      ensures OnWorker(sessions, worker) == {}
    {
      var todo := sessions.Keys;
      while todo != {}
        invariant todo <= old(sessions).Keys
        invariant forall id :: id in sessions <==> id in old(sessions) && (id in todo || old(sessions)[id].worker != worker)
        invariant forall id :: id in sessions ==> sessions[id] == old(sessions)[id]
        decreases |todo|
      {
        var id :| id in todo;
        if sessions[id].worker == worker {
          sessions := sessions - {id};
        }
        todo := todo - {id};
      }
      FewerIsWithin(old(sessions), sessions, cfg);
    }

    /** First half of a sweep: the sessions idle or alive for too long. */
    method CollectExpired(now: int) returns (expired: set<Session>)
      requires Valid()
      ensures forall s :: s in expired <==>
                s.id in sessions && sessions[s.id] == s
                && (now - s.lastActive > cfg.idleTtl || now - s.created > cfg.maxLifetime)
    {
      expired := {};
      var todo := sessions.Keys;
      while todo != {}
        invariant todo <= sessions.Keys
        invariant forall s :: s in expired <==>
                    s.id in sessions && s.id !in todo && sessions[s.id] == s
                    && (now - s.lastActive > cfg.idleTtl || now - s.created > cfg.maxLifetime)
        decreases |todo|
      {
        var id :| id in todo;
        var s := sessions[id];
        if now - s.lastActive > cfg.idleTtl || now - s.created > cfg.maxLifetime {
          expired := expired + {s};
        }
        todo := todo - {id};
      }
    }

    /**
     * Second half, after the close command: the entry goes iff it is still the same object - no
     * matter how recently that object was active.
     */
    method DropExpired(s: Session)
      requires Valid()
      modifies this`sessions
      ensures Valid()
      ensures sessions == if s.id in old(sessions) && old(sessions)[s.id] == s then old(sessions) - {s.id} else old(sessions)
    {
      if s.id in sessions && sessions[s.id] == s {
        FewerIsWithin(sessions, sessions - {s.id}, cfg);
        sessions := sessions - {s.id};
      }
    }

    /** A tenant's own session is touched; anything else is reported as gone. */
    method Require(tenant: int, id: string, now: int) returns (r: Option<Session>)
      requires Valid()
      modifies if id in sessions then {sessions[id]} else {}
      ensures Valid() && sessions == old(sessions)
      ensures r == if id in sessions && sessions[id].tenant == tenant then Some(sessions[id]) else None
      ensures r.Some? ==> r.value.lastActive == now
      ensures r.None? && id in sessions ==> sessions[id].lastActive == old(sessions[id].lastActive)
    {
      if id !in sessions || sessions[id].tenant != tenant {
        return None;
      }
      var s := sessions[id];
      s.lastActive := now;
      return Some(s);
    }

    /**
     * A session opened, found idle by a sweep, and used again before that sweep's second half: the
     * caller holds a session that is active by every measure and no longer registered.
     */
    method SweptWhileUsed(tenant: int, id: string, ws: seq<Candidate>, openedAt: int, sweptAt: int, usedAt: int)
      returns (s: Session)
      requires Valid() && id !in sessions && OpenRefusal(sessions, cfg, tenant, id, ws) == None
      requires sweptAt - openedAt > cfg.idleTtl
      modifies this`sessions
      ensures Valid() && sessions == old(sessions) && id !in sessions
      ensures s.id == id && s.tenant == tenant && s.lastActive == usedAt
    {
      var refusal := Open(tenant, id, ws, openedAt);
      var expired := CollectExpired(sweptAt);
      assert sessions[id] in expired;
      var found := Require(tenant, id, usedAt);
      s := found.value;
      DropExpired(s);
      assert sessions == old(sessions);
    }

    /** The locked part of a round trip: route by the registry, and register the call. */
    method BeginCall(id: string, online: set<string>, request: string) returns (routed: bool)
      requires Valid() && request !in pending
      modifies this`sessions, this`pending
      ensures Valid()
      ensures routed <==> id in old(sessions) && old(sessions)[id].worker in online
      ensures pending == if routed then old(pending) + {request} else old(pending)
      ensures sessions == if routed then old(sessions) else old(sessions) - {id}
    {
      if id !in sessions {
        assert sessions - {id} == sessions;
        return false;
      }
      if sessions[id].worker !in online {
        FewerIsWithin(sessions, sessions - {id}, cfg);
        sessions := sessions - {id};
        return false;
      }
      pending := pending + {request};
      return true;
    }

    /** The locked part of a delivery: true iff the caller now owes the channel this reply. */
    method TakePending(request: string) returns (found: bool)
      requires Valid()
      modifies this`pending
      ensures Valid() && found == (request in old(pending)) && pending == old(pending) - {request}
    {
      found := request in pending;
      if found {
        pending := pending - {request};
      }
    }
  }
}
