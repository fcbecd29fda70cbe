/** The fixed-window limiter of the login endpoints; times are the clock readings of the calls. */
module RateLimiter {
  import opened Prelude

  const SWEEP_ABOVE := 10_000

  datatype Entry = Entry(start: int, n: int)

  type Hits = map<string, Entry>

  datatype Limits = Limits(limit: int, window: int)

  datatype Call = Call(key: string, at: int)

  datatype Outcome = Outcome(allowed: bool, hits: Hits)

  predicate Expired(e: Entry, now: int, l: Limits) {
    now - e.start > l.window
  }

  /** The decision, on whatever the table holds. */
  function Decide(hits: Hits, c: Call, l: Limits): Outcome {
    if c.key !in hits || Expired(hits[c.key], c.at, l) then Outcome(true, hits[c.key := Entry(c.at, 1)])
    else if hits[c.key].n >= l.limit then Outcome(false, hits)
    else Outcome(true, hits[c.key := Entry(hits[c.key].start, hits[c.key].n + 1)])
  }

  function Swept(hits: Hits, now: int, l: Limits): Hits {
    map k | k in hits && !Expired(hits[k], now, l) :: hits[k]
  }

  /** The limiter as it is: a large table is swept first. */
  function Allowed(hits: Hits, c: Call, l: Limits): Outcome {
    Decide(if |hits| > SWEEP_ABOVE then Swept(hits, c.at, l) else hits, c, l)
  }

  class FixedWindowLimiter {
    const l: Limits
    var hits: Hits

    constructor (l: Limits)
      ensures this.l == l && hits == map[]
    {
      this.l, hits := l, map[];
    }

    method Allow(key: string, now: int) returns (ok: bool)
      modifies this`hits
      ensures Outcome(ok, hits) == Allowed(old(hits), Call(key, now), l)
    {
      if |hits| > SWEEP_ABOVE {
        var todo := hits.Keys;
        while todo != {}
          invariant todo <= old(hits).Keys
          invariant hits == map k | k in old(hits) && (k in todo || !Expired(old(hits)[k], now, l)) :: old(hits)[k]
          decreases |todo|
        {
          var k :| k in todo;
          if now - hits[k].start > l.window {
            hits := hits - {k};
          }
          todo := todo - {k};
        }
        assert hits == Swept(old(hits), now, l);
      }
      if key !in hits || now - hits[key].start > l.window {
        hits := hits[key := Entry(now, 1)];
        return true;
      }
      if hits[key].n >= l.limit {
        return false;
      }
      hits := hits[key := Entry(hits[key].start, hits[key].n + 1)];
      return true;
    }
  }

  // ---- Histories ----

  function Table(cs: seq<Call>, k: nat, l: Limits, sweeping: bool): Hits
    requires k <= |cs|
    decreases k, 0
  {
    if k == 0 then map[] else Answer(cs, k - 1, l, sweeping).hits
  }

  function Answer(cs: seq<Call>, k: nat, l: Limits, sweeping: bool): Outcome
    requires k < |cs|
    decreases k, 1
  {
    if sweeping then Allowed(Table(cs, k, l, sweeping), cs[k], l) else Decide(Table(cs, k, l, sweeping), cs[k], l)
  }

  // ---- The sweep is invisible ----

  /** The entry that still matters at `now`. */
  function Live(hits: Hits, key: string, now: int, l: Limits): Option<Entry> {
    if key in hits && !Expired(hits[key], now, l) then Some(hits[key]) else None
  }

  /** The reading is taken before the lock, so readings can run backwards in the order of the calls. */
  predicate Sweeps(cs: seq<Call>, i: nat, l: Limits)
    requires i < |cs|
  {
    |Table(cs, i, l, true)| > SWEEP_ABOVE
  }

  /** No sweep among the first `k` calls has read a later time than `now`. */
  ghost predicate PastSweeps(cs: seq<Call>, k: nat, now: int, l: Limits)
    requires k <= |cs|
  {
    forall i :: 0 <= i < k && Sweeps(cs, i, l) ==> cs[i].at <= now
  }

  /** No call of `key` reads a time before that of an earlier sweep. */
  ghost predicate NoneBehind(cs: seq<Call>, key: string, l: Limits) {
    forall j :: 0 <= j < |cs| && cs[j].key == key ==> PastSweeps(cs, j, cs[j].at, l)
  }

  /** The calls of `key` read the clock in the order in which they are decided. */
  ghost predicate InOrder(cs: seq<Call>, key: string) {
    forall i, j :: 0 <= i <= j < |cs| && cs[i].key == key && cs[j].key == key ==> cs[i].at <= cs[j].at
  }

  lemma DecideSees(a: Hits, b: Hits, c: Call, key: string, now: int, l: Limits)
    requires Live(a, key, now, l) == Live(b, key, now, l)
    requires c.key == key ==> Live(a, key, c.at, l) == Live(b, key, c.at, l)
    ensures c.key == key ==> Decide(a, c, l).allowed == Decide(b, c, l).allowed
    ensures Live(Decide(a, c, l).hits, key, now, l) == Live(Decide(b, c, l).hits, key, now, l)
  {
  }

  /** From the last sweep on, the two tables hold the same entry of `key` that matters. */
  lemma {:induction false} TablesAgree(cs: seq<Call>, k: nat, key: string, now: int, l: Limits)
    requires k <= |cs| && NoneBehind(cs, key, l) && PastSweeps(cs, k, now, l)
    ensures Live(Table(cs, k, l, true), key, now, l) == Live(Table(cs, k, l, false), key, now, l)
  {
    hide Decide;
    if k > 0 {
      var c := cs[k - 1];
      var a, b := Table(cs, k - 1, l, true), Table(cs, k - 1, l, false);
      TablesAgree(cs, k - 1, key, now, l);
      if c.key == key {
        TablesAgree(cs, k - 1, key, c.at, l);
      }
      if Sweeps(cs, k - 1, l) {
        assert c.at <= now;
        DecideSees(Swept(a, c.at, l), b, c, key, now, l);
      } else {
        DecideSees(a, b, c, key, now, l);
      }
    }
  }

  /** The sweeping limiter answers the calls of a key as one that never sweeps, unless one reads behind a sweep. */
  lemma SweepNeverShows(cs: seq<Call>, k: nat, l: Limits)
    requires k < |cs| && NoneBehind(cs, cs[k].key, l)
    ensures Answer(cs, k, l, true).allowed == Answer(cs, k, l, false).allowed
  {
    var c := cs[k];
    var a, b := Table(cs, k, l, true), Table(cs, k, l, false);
    TablesAgree(cs, k, c.key, c.at, l);
    hide Table;
    assert Live(Swept(a, c.at, l), c.key, c.at, l) == Live(a, c.key, c.at, l);
    DecideSees(if |a| > SWEEP_ABOVE then Swept(a, c.at, l) else a, b, c, c.key, c.at, l);
  }

  /**
   * When it shows: a call that sweeps, then one of another key that reads an earlier time, at which
   * that key's used-up window was still open.
   */
  lemma SweepShowsExactly(hits: Hits, c: Call, d: Call, l: Limits)
    requires |hits| > 10_000
    ensures Allowed(Allowed(hits, c, l).hits, d, l).allowed != Decide(Decide(hits, c, l).hits, d, l).allowed <==>
            && d.key != c.key && d.key in hits && hits[d.key].n >= l.limit
            && Expired(hits[d.key], c.at, l) && !Expired(hits[d.key], d.at, l)
  {
    var a, b := Allowed(hits, c, l).hits, Decide(hits, c, l).hits;
    if d.key == c.key {
      assert Live(Swept(hits, c.at, l), c.key, c.at, l) == Live(hits, c.key, c.at, l);
      assert a[d.key] == b[d.key];
    } else {
      assert d.key in a <==> d.key in hits && !Expired(hits[d.key], c.at, l);
    }
    assert Live(Swept(a, d.at, l), d.key, d.at, l) == Live(a, d.key, d.at, l);
    DecideSees(a, Swept(a, d.at, l), d, d.key, d.at, l);
  }

  // ---- How much gets through ----

  predicate PassesAt(cs: seq<Call>, i: nat, key: string, l: Limits, sweeping: bool)
    requires i < |cs|
  {
    cs[i].key == key && Answer(cs, i, l, sweeping).allowed
  }

  /** The calls of `key` let through among calls i with from <= i < k. */
  function Passed(cs: seq<Call>, from: nat, k: nat, key: string, l: Limits, sweeping: bool): set<nat>
    requires k <= |cs|
  {
    set i: nat | from <= i < k && PassesAt(cs, i, key, l, sweeping)
  }

  /** Where the window that is current after k calls was opened. */
  function Opener(cs: seq<Call>, k: nat, key: string, l: Limits, sweeping: bool): (o: Option<nat>)
    requires k <= |cs|
    ensures o.Some? ==> o.value < k
  {
    if k == 0 then None
    else if cs[k - 1].key == key && Live(Table(cs, k - 1, l, sweeping), key, cs[k - 1].at, l).None? then Some(k - 1)
    else Opener(cs, k - 1, key, l, sweeping)
  }

  lemma PassedStep(cs: seq<Call>, from: nat, k: nat, key: string, l: Limits)
    requires 0 < k <= |cs| && from < k
    ensures Passed(cs, from, k, key, l, false) ==
            Passed(cs, from, k - 1, key, l, false) + if PassesAt(cs, k - 1, key, l, false) then {k - 1} else {}
    ensures |Passed(cs, from, k, key, l, false)| ==
            |Passed(cs, from, k - 1, key, l, false)| + if PassesAt(cs, k - 1, key, l, false) then 1 else 0
  {
    hide PassesAt;
    assert Passed(cs, from, k, key, l, false) ==
           Passed(cs, from, k - 1, key, l, false) + if PassesAt(cs, k - 1, key, l, false) then {k - 1} else {};
  }

  /** What one call does to the entry of `key`. */
  lemma TableStep(cs: seq<Call>, k: nat, key: string, l: Limits)
    requires 0 < k <= |cs|
    ensures var before, after := Table(cs, k - 1, l, false), Table(cs, k, l, false);
            var passed := Answer(cs, k - 1, l, false).allowed;
            var now := cs[k - 1].at;
            if cs[k - 1].key != key then (key in after <==> key in before) && (key in after ==> after[key] == before[key])
            else if Live(before, key, now, l).None? then passed && key in after && after[key] == Entry(now, 1)
            else key in after && (passed <==> before[key].n < l.limit)
                 && after[key] == Entry(before[key].start, before[key].n + if passed then 1 else 0)
  {
  }

  /** Without the sweep: the table entry is the current window, its opener's time and how many passed since. */
  lemma {:induction false} EntryIsWindowUnswept(cs: seq<Call>, k: nat, key: string, l: Limits)
    requires k <= |cs| && l.limit >= 1
    ensures var t := Table(cs, k, l, false);
            var o := Opener(cs, k, key, l, false);
            && (key in t <==> o.Some?)
            && (o.Some? ==> o.value < k && cs[o.value].key == key
                            && t[key] == Entry(cs[o.value].at, |Passed(cs, o.value, k, key, l, false)|) && t[key].n <= l.limit)
            && (o.None? ==> Passed(cs, 0, k, key, l, false) == {})
  {
    if k > 0 {
      EntryIsWindowUnswept(cs, k - 1, key, l);
      var o := Opener(cs, k, key, l, false);
      TableStep(cs, k, key, l);
      hide Answer;
      hide Decide;
      if o.Some? {
        PassedStep(cs, o.value, k, key, l);
        assert Passed(cs, k - 1, k - 1, key, l, false) == {};
      } else {
        PassedStep(cs, 0, k, key, l);
      }
    } else {
      assert Passed(cs, 0, 0, key, l, false) == {};
    }
  }

  /** Between two windows of a key lies more than one window length. */
  lemma {:induction false} OpenerIsOpen(cs: seq<Call>, k: nat, key: string, l: Limits)
    requires k <= |cs| && l.limit >= 1 && Opener(cs, k, key, l, false).Some?
    ensures var o := Opener(cs, k, key, l, false).value;
            o < k && Live(Table(cs, o, l, false), key, cs[o].at, l).None?
  {
    if !(cs[k - 1].key == key && Live(Table(cs, k - 1, l, false), key, cs[k - 1].at, l).None?) {
      OpenerIsOpen(cs, k - 1, key, l);
    }
  }

  /** The calls of `key` that pass within the `window` time units after `t`. */
  function PassedDuring(cs: seq<Call>, k: nat, key: string, l: Limits, t: int, sweeping: bool): set<nat>
    requires k <= |cs|
  {
    set i: nat | i in Passed(cs, 0, k, key, l, sweeping) && t <= cs[i].at <= t + l.window
  }

  lemma {:induction false} AnyIntervalUnswept(cs: seq<Call>, k: nat, key: string, l: Limits, t: int)
    requires k <= |cs| && l.limit >= 1 && InOrder(cs, key)
    ensures |PassedDuring(cs, k, key, l, t, false)| <= 2 * l.limit
    decreases k
  {
    hide Answer;
    hide Decide;
    EntryIsWindowUnswept(cs, k, key, l);
    var during := PassedDuring(cs, k, key, l, t, false);
    if Opener(cs, k, key, l, false).None? {
      assert during == {};
    } else {
      var o := Opener(cs, k, key, l, false).value;
      OpenerIsOpen(cs, k, key, l);
      var late := set i | i in during && i >= o;
      var early := PassedDuring(cs, o, key, l, t, false);
      assert during == early + late;
      SubsetSize(late, Passed(cs, o, k, key, l, false));
      if late == {} {
        AnyIntervalUnswept(cs, o, key, l, t);
      } else {
        var j :| j in late;
        EarlyFitsOneWindow(cs, o, key, l, t, j);
      }
    }
  }

  /** If the interval reaches into the window opened at `o`, it only meets the window just before. */
  lemma EarlyFitsOneWindow(cs: seq<Call>, o: nat, key: string, l: Limits, t: int, j: nat)
    requires o <= j < |cs| && l.limit >= 1 && InOrder(cs, key) && cs[o].key == key && cs[j].key == key && cs[j].at <= t + l.window
    requires Live(Table(cs, o, l, false), key, cs[o].at, l).None?
    ensures |PassedDuring(cs, o, key, l, t, false)| <= l.limit
  {
    hide Answer;
    hide Decide;
    EntryIsWindowUnswept(cs, o, key, l);
    var early := PassedDuring(cs, o, key, l, t, false);
    if Opener(cs, o, key, l, false).None? {
      assert early == {};
    } else {
      var p := Opener(cs, o, key, l, false).value;
      assert cs[o].at - cs[p].at > l.window;
      forall i | i in early
        ensures i in Passed(cs, p, o, key, l, false)
      {
        assert cs[o].at <= cs[j].at;
        assert i >= p;
      }
      SubsetSize(early, Passed(cs, p, o, key, l, false));
    }
  }

  // ---- The limiter as it is ----

  lemma {:induction false} SweepingSameWindows(cs: seq<Call>, from: nat, k: nat, key: string, l: Limits)
    requires k <= |cs| && NoneBehind(cs, key, l)
    ensures Passed(cs, from, k, key, l, true) == Passed(cs, from, k, key, l, false)
    ensures Opener(cs, k, key, l, true) == Opener(cs, k, key, l, false)
  {
    hide Answer, Decide;
    forall i | from <= i < k && cs[i].key == key ensures Answer(cs, i, l, true).allowed == Answer(cs, i, l, false).allowed {
      SweepNeverShows(cs, i, l);
    }
    if k > 0 {
      SweepingSameWindows(cs, from, k - 1, key, l);
      if cs[k - 1].key == key {
        TablesAgree(cs, k - 1, key, cs[k - 1].at, l);
      }
    }
  }

  /**
   * The entry that matters at `now` is the key's current window: when it was opened, and how many calls
   * it has let through; there is none exactly when no window is open.
   */
  lemma EntryIsWindow(cs: seq<Call>, k: nat, key: string, now: int, l: Limits)
    requires k <= |cs| && l.limit >= 1 && NoneBehind(cs, key, l) && PastSweeps(cs, k, now, l)
    ensures Live(Table(cs, k, l, true), key, now, l) ==
            var o := Opener(cs, k, key, l, true);
            if o.Some? && now - cs[o.value].at <= l.window
            then Some(Entry(cs[o.value].at, |Passed(cs, o.value, k, key, l, true)|)) else None
  {
    hide Answer, Decide;
    TablesAgree(cs, k, key, now, l);
    EntryIsWindowUnswept(cs, k, key, l);
    var o := Opener(cs, k, key, l, false);
    SweepingSameWindows(cs, if o.Some? then o.value else 0, k, key, l);
    assert Live(Table(cs, k, l, true), key, now, l) == Live(Table(cs, k, l, false), key, now, l);
  }

  /** A call passes exactly when its key has no open window, or that window has let fewer than `limit` calls through. */
  lemma PassesExactly(cs: seq<Call>, k: nat, l: Limits)
    requires k < |cs| && l.limit >= 1 && NoneBehind(cs, cs[k].key, l)
    ensures var key, now := cs[k].key, cs[k].at;
            var o := Opener(cs, k, key, l, true);
            Answer(cs, k, l, true).allowed <==>
            o.None? || now - cs[o.value].at > l.window || |Passed(cs, o.value, k, key, l, true)| < l.limit
  {
    var key, now := cs[k].key, cs[k].at;
    EntryIsWindow(cs, k, key, now, l);
    var t := Table(cs, k, l, true);
    hide Opener, Passed, Table;
    assert Live(Swept(t, now, l), key, now, l) == Live(t, key, now, l);
    var before := if |t| > SWEEP_ABOVE then Swept(t, now, l) else t;
    assert Decide(before, cs[k], l).allowed <==> Live(before, key, now, l).None? || before[key].n < l.limit;
  }

  /** In one window at most `limit` calls of a key pass. */
  lemma PerWindow(cs: seq<Call>, k: nat, key: string, l: Limits)
    requires k <= |cs| && l.limit >= 1 && NoneBehind(cs, key, l) && Opener(cs, k, key, l, true).Some?
    ensures |Passed(cs, Opener(cs, k, key, l, true).value, k, key, l, true)| <= l.limit
  {
    EntryIsWindowUnswept(cs, k, key, l);
    hide Answer, Table;
    SweepingSameWindows(cs, Opener(cs, k, key, l, true).value, k, key, l);
  }

  /** In any stretch of time one window long, aligned or not, at most twice the limit passes. */
  lemma AnyInterval(cs: seq<Call>, k: nat, key: string, l: Limits, t: int)
    requires k <= |cs| && l.limit >= 1 && NoneBehind(cs, key, l) && InOrder(cs, key)
    ensures |PassedDuring(cs, k, key, l, t, true)| <= 2 * l.limit
  {
    AnyIntervalUnswept(cs, k, key, l, t);
    hide Answer;
    SweepingSameWindows(cs, 0, k, key, l);
    assert PassedDuring(cs, k, key, l, t, true) == PassedDuring(cs, k, key, l, t, false);
  }

  // ---- Readings out of order ----

  /** Every other call of `key` reads time zero, the ones between read later and later. */
  function Bouncing(key: string, n: nat): seq<Call> {
    seq(n, i => Call(key, if i % 2 == 0 then 0 else 101 * ((i + 1) / 2)))
  }

  lemma {:induction false} BouncingTable(key: string, n: nat, k: nat)
    requires 0 < k <= n
    ensures var last := k - 1;
            Answer(Bouncing(key, n), last, Limits(2, 100), true) ==
            Outcome(true, map[key := if last == 0 then Entry(0, 1)
                                     else if last % 2 == 1 then Entry(101 * ((last + 1) / 2), 1)
                                     else Entry(101 * (last / 2), 2)])
  {
    if k > 1 {
      BouncingTable(key, n, k - 1);
    }
  }

  lemma BouncingNeverSweeps(key: string, n: nat)
    ensures NoneBehind(Bouncing(key, n), key, Limits(2, 100))
  {
    var cs, l := Bouncing(key, n), Limits(2, 100);
    forall i | 0 <= i < n ensures !Sweeps(cs, i, l) {
      hide Answer, Bouncing;
      if i > 0 {
        BouncingTable(key, n, i);
      }
    }
  }

  lemma BouncingPasses(key: string, n: nat, i: nat)
    requires i < n
    ensures PassesAt(Bouncing(key, n), i, key, Limits(2, 100), true)
  {
    BouncingTable(key, n, i + 1);
  }

  lemma OneMoreAtZero(cs: seq<Call>, k: nat, key: string, l: Limits)
    requires k + 1 < |cs| && PassesAt(cs, k, key, l, true) && cs[k].at == 0 <= l.window < cs[k + 1].at
    ensures |PassedDuring(cs, k + 2, key, l, 0, true)| == |PassedDuring(cs, k, key, l, 0, true)| + 1
  {
    hide PassesAt;
    assert PassedDuring(cs, k + 2, key, l, 0, true) == PassedDuring(cs, k, key, l, 0, true) + {k};
  }

  /** Without readings in order there is no bound at all: any number of calls can pass at time zero. */
  lemma {:induction false} OutOfOrderUnbounded(key: string, n: nat, m: nat)
    requires 2 * m <= n
    ensures NoneBehind(Bouncing(key, n), key, Limits(2, 100))
    ensures |PassedDuring(Bouncing(key, n), 2 * m, key, Limits(2, 100), 0, true)| == m
  {
    hide PassesAt, NoneBehind;
    var cs, l := Bouncing(key, n), Limits(2, 100);
    BouncingNeverSweeps(key, n);
    if m == 0 {
      assert PassedDuring(cs, 0, key, l, 0, true) == {};
    } else {
      OutOfOrderUnbounded(key, n, m - 1);
      BouncingPasses(key, n, 2 * m - 2);
      assert cs[2 * m - 2].at == 0 && cs[2 * m - 1].at > 100;
      hide Bouncing;
      OneMoreAtZero(cs, 2 * m - 2, key, l);
    }
  }
}
