/** What the pool's decisions come to in the configured limits themselves: lifetime, requests, idle time,
    cache and quarantine, for each rotation strategy. */
module PoolLimits {
  import opened Wrappers
  import opened Lifecycle
  import opened PoolSpec
  import opened PoolProtocol
  import opened PoolInvariant
  import opened PoolSafety
  import opened PoolMonitor
  import opened PoolQuota

  /** Past its lifetime, or out of requests, as far as the strategy cares. */
  predicate Worn(cfg: LifecycleConfig, c: Slot, now: nat) {
    match cfg.rotation
    case TimeBasedOnly => now > c.createdAt + cfg.maxLifetime
    case RequestBasedOnly => c.requests >= cfg.maxRequests
    case Hybrid => now > c.createdAt + cfg.maxLifetime || c.requests >= cfg.maxRequests
  }

  lemma UsedUpIff(cfg: LifecycleConfig, c: Slot, now: nat)
    ensures c.UsedUp(cfg, now) <==> Worn(cfg, c, now)
  {
  }

  /** Idle time and cache size count only under Hybrid. */
  lemma ExpiredIff(cfg: LifecycleConfig, c: Slot, now: nat)
    ensures c.Expired(cfg, now) <==>
              || Worn(cfg, c, now)
              || (cfg.rotation == Hybrid && (now > c.lastUsedAt + cfg.maxIdleTime || c.cacheMb > cfg.maxCacheMb))
  {
  }

  predicate RefusedBy(c: Slot, origin: Option<Origin>, now: nat) {
    origin.Some? && origin.value in c.blocked && now < c.blocked[origin.value]
  }

  /** Idle, in the pool, and nothing speaks against it. */
  predicate Usable(scope: Scope, s: Sys, origin: Option<Origin>, id: nat) {
    && id in s.pool && id in s.heap && !s.heap[id].busy
    && !Worn(scope.lifecycle, s.heap[id], s.now) && !RefusedBy(s.heap[id], origin, s.now)
  }

  lemma UsableIsEligible(scope: Scope, s: Sys, origin: Option<Origin>, id: nat)
    requires Shape(s) && id in s.pool
    ensures Usable(scope, s, origin, id) <==> s.heap[id].Eligible(origin, scope.lifecycle, s.now)
  {
    UsedUpIff(scope.lifecycle, s.heap[id], s.now);
  }

  /** In Reusable a request without overrides gets a usable context whenever there is one, one that has
      served the fewest requests, and then no context leaves the pool and none is built. */
  lemma UsableContextIsClaimed(scope: Scope, s: Sys, r: nat, origin: Option<Origin>, id: nat)
    requires Inv(scope, s) && WriteFree(s) && scope.mode.Reusable? && r !in s.reqs
    requires Usable(scope, s, origin, id)
    ensures var t := Next(scope, s, Acquire(r, false, origin));
            && t.pool == s.pool && t.pending == s.pending
            && exists held :: Holds(t, r, held) && Usable(scope, s, origin, held)
                              && s.heap[held].requests <= s.heap[id].requests
  {
    var v := View(s);
    var i :| 0 <= i < |s.pool| && s.pool[i] == id;
    UsableIsEligible(scope, s, origin, id);
    ReuseComesFirst(v, s.pending, scope.maxContexts, origin, scope.lifecycle, s.now, i);
    var g := Decide(v, s.pending, scope.maxContexts, false, origin, scope.lifecycle, s.now);
    var held := s.pool[g.index];
    assert held in s.pool && v[g.index] == s.heap[held] && v[i] == s.heap[id];
    UsableIsEligible(scope, s, origin, held);
    assert Next(scope, s, Acquire(r, false, origin)) == Claim(s, r, held);
    assert Holds(Next(scope, s, Acquire(r, false, origin)), r, held);
  }

  /** Under the shared lock the usable contexts are all listed, and tried in order of use. */
  lemma ScanListsTheUsable(scope: Scope, s: Sys, r: nat, origin: Option<Origin>)
    requires Inv(scope, s) && WriteFree(s) && scope.mode.Reusable? && r !in s.reqs
    ensures var t := Next(scope, s, Scan(r, origin));
            && r in t.reqs && t.reqs[r].Scanning?
            && var ids := t.reqs[r].candidates;
               && (forall id :: id in ids <==> Usable(scope, s, origin, id))
               && (forall a, b :: 0 <= a < b < |ids| ==> ids[a] != ids[b] && At(s, ids[a]).requests <= At(s, ids[b]).requests)
  {
    var ids := CandidateIds(s, scope, origin);
    var ranks := LeastUsedRanks(View(s), origin, scope.lifecycle, s.now);
    var order := Order(ranks);
    OrderUpToIsOrder(ranks, |ranks|);
    forall id ensures id in ids <==> Usable(scope, s, origin, id) {
      ScansListTheEligible(scope, s, r, origin, id);
      if id in s.pool { UsableIsEligible(scope, s, origin, id); }
    }
    forall a, b | 0 <= a < b < |ids| ensures ids[a] != ids[b] && At(s, ids[a]).requests <= At(s, ids[b]).requests {
      assert order[a] in order && order[b] in order && Before(ranks, order[a], order[b]);
    }
  }

  /** And a context is given up for a new one only when it is worn, the pool is full, nothing usable is
      left and no idle context is older. */
  lemma OnlyWornContextsAreReplaced(scope: Scope, s: Sys, r: nat, dedicatedProxy: bool, origin: Option<Origin>, id: nat)
    requires Inv(scope, s) && WriteFree(s) && scope.mode.Reusable? && r !in s.reqs
    requires id in s.pool && id !in Next(scope, s, Acquire(r, dedicatedProxy, origin)).pool
    ensures !s.heap[id].busy && Worn(scope.lifecycle, s.heap[id], s.now)
    ensures |s.pool| + s.pending == scope.maxContexts
    ensures !dedicatedProxy ==> forall x :: x in s.pool ==> !Usable(scope, s, origin, x)
    ensures forall x :: x in s.pool && !s.heap[x].busy && Worn(scope.lifecycle, s.heap[x], s.now) ==>
              s.heap[id].createdAt <= s.heap[x].createdAt
  {
    var v := View(s);
    DecideIsSound(v, s.pending, scope.maxContexts, dedicatedProxy, origin, scope.lifecycle, s.now);
    var g := Decide(v, s.pending, scope.maxContexts, dedicatedProxy, origin, scope.lifecycle, s.now);
    assert g.Replaced? && s.pool[g.index] == id && v[g.index] == s.heap[id];
    UsedUpIff(scope.lifecycle, s.heap[id], s.now);
    forall x | x in s.pool && !s.heap[x].busy && Worn(scope.lifecycle, s.heap[x], s.now)
      ensures s.heap[id].createdAt <= s.heap[x].createdAt
    {
      var j :| 0 <= j < |s.pool| && s.pool[j] == x;
      UsedUpIff(scope.lifecycle, s.heap[x], s.now);
      assert v[j] == s.heap[x];
    }
    if !dedicatedProxy {
      forall x | x in s.pool ensures !Usable(scope, s, origin, x) {
        if Usable(scope, s, origin, x) { UsableContextIsClaimed(scope, s, r, origin, x); }
      }
    }
  }

  /** A context that the origin still refuses is handed out only by a full pool in which every idle context
      is refused as well and none is worn, and then the one that is refused for the shortest time. */
  lemma RefusedContextIsLastResort(scope: Scope, s: Sys, r: nat, origin: Origin, id: nat)
    requires Inv(scope, s) && WriteFree(s) && scope.mode.Reusable? && r !in s.reqs && id in s.pool
    requires Holds(Next(scope, s, Acquire(r, false, Some(origin))), r, id) && RefusedBy(s.heap[id], Some(origin), s.now)
    ensures |s.pool| + s.pending == scope.maxContexts
    ensures forall x :: x in s.pool && !s.heap[x].busy ==>
              && !Worn(scope.lifecycle, s.heap[x], s.now) && RefusedBy(s.heap[x], Some(origin), s.now)
              && s.heap[id].blocked[origin] <= s.heap[x].blocked[origin]
  {
    var v := View(s);
    DecideIsSound(v, s.pending, scope.maxContexts, false, Some(origin), scope.lifecycle, s.now);
    QuarantineFallbackIsLastResort(v, s.pending, scope.maxContexts, false, origin, scope.lifecycle, s.now);
    var g := Decide(v, s.pending, scope.maxContexts, false, Some(origin), scope.lifecycle, s.now);
    assert g.Claimed? && s.pool[g.index] == id && v[g.index] == s.heap[id];
    forall x | x in s.pool && !s.heap[x].busy
      ensures !Worn(scope.lifecycle, s.heap[x], s.now) && RefusedBy(s.heap[x], Some(origin), s.now)
      ensures s.heap[id].blocked[origin] <= s.heap[x].blocked[origin]
    {
      var j :| 0 <= j < |s.pool| && s.pool[j] == x;
      UsedUpIff(scope.lifecycle, s.heap[x], s.now);
      assert v[j] == s.heap[x];
    }
  }

  /** The monitor's tick finds a context expired exactly when it is in the pool and worn, or under Hybrid
      idle or large beyond its limit; in Dedicated only if no request runs in it. */
  lemma TickFindsExpiredIff(scope: Scope, s: Sys, id: nat)
    requires Shape(s)
    ensures FindsExpired(scope, s, id) <==>
              && id in s.pool && (scope.mode == Dedicated ==> !s.heap[id].busy)
              && var cfg, c := scope.lifecycle, s.heap[id];
                 || Worn(cfg, c, s.now)
                 || (cfg.rotation == Hybrid && (s.now > c.lastUsedAt + cfg.maxIdleTime || c.cacheMb > cfg.maxCacheMb))
  {
    if id in s.pool { ExpiredIff(scope.lifecycle, s.heap[id], s.now); }
  }

  /** A Dedicated session ends on its client's return exactly when its context is worn, idle and still in
      the pool. */
  lemma SessionEndsIff(scope: Scope, s: Sys, r: nat)
    requires Inv(scope, s) && WriteFree(s) && r in s.reqs && s.reqs[r].Looking?
    ensures var id := s.reqs[r].id;
            r !in Next(scope, s, EndIfUsedUp(r)).reqs <==>
              id in s.pool && !s.heap[id].busy && Worn(scope.lifecycle, s.heap[id], s.now)
  {
    UsedUpIff(scope.lifecycle, s.heap[s.reqs[r].id], s.now);
  }

  /** An AlwaysNew context leaves the pool with its request: its end queues the removal, and the removal
      takes it out. */
  lemma AlwaysNewContextLeaves(scope: Scope, s: Sys, r: nat)
    requires Inv(scope, s) && scope.mode.AlwaysNew? && r in s.reqs && s.reqs[r].Holding?
    ensures var id := s.reqs[r].id;
            var t := Next(scope, s, Release(r));
            && id in t.cleanups
            && (WriteFree(t) ==> id !in Next(scope, t, Cleanup(id)).pool)
  {
    assert Holds(s, r, s.reqs[r].id);
  }

  // ----- the statistics -----

  ghost function BusyIn(s: Sys, pool: seq<nat>): set<nat> {
    set id | id in pool && id in s.heap && s.heap[id].busy
  }

  ghost function BusyIds(s: Sys): set<nat> { BusyIn(s, s.pool) }

  lemma OneMoreBusy(s: Sys, head: nat, tail: seq<nat>)
    requires head in s.heap && head !in tail
    ensures |BusyIn(s, [head] + tail)| == |BusyIn(s, tail)| + if s.heap[head].busy then 1 else 0
  {
    assert BusyIn(s, [head] + tail) == BusyIn(s, tail) + if s.heap[head].busy then {head} else {};
  }

  lemma {:induction false} CountBusyIds(s: Sys, pool: seq<nat>)
    requires PoolInvariant.Distinct(pool) && forall id :: id in pool ==> id in s.heap
    ensures CountBusy(ViewOf(s, pool)) == |BusyIn(s, pool)|
  {
    if pool != [] {
      var head, tail := pool[0], pool[1..];
      assert pool == [head] + tail;
      CountBusyIds(s, tail);
      OneMoreBusy(s, head, tail);
      ViewCons(s, head, tail);
    }
  }

  /** Every number is what it is called. */
  lemma StatsCountWhatIsThere(scope: Scope, s: Sys)
    requires Inv(scope, s)
    ensures var stats := StatsOf(View(s), s.pending, scope.maxContexts, scope.mode);
            && stats.totalContexts == |s.pool| && stats.totalSlots == scope.maxContexts
            && stats.activeRequests == |BusyIds(s)| + |Builders(s.reqs)|
            && stats.claimedContexts ==
                 (if scope.mode == Dedicated then |s.pool| + |Builders(s.reqs)| else |BusyIds(s)| + |Builders(s.reqs)|)
            && stats.availableSlots == scope.maxContexts - stats.claimedContexts
  {
    CountBusyIds(s, s.pool);
    CountBusyIsFull(View(s));
  }

  /** The request total is that of the contexts, one by one. */
  lemma {:induction false} TotalRequestsAddUp(a: seq<Slot>, b: seq<Slot>, pending: nat, max: nat, mode: SessionMode)
    ensures StatsOf(a + b, pending, max, mode).totalRequests
         == StatsOf(a, pending, max, mode).totalRequests + StatsOf(b, pending, max, mode).totalRequests
    ensures StatsOf([], pending, max, mode).totalRequests == 0
    ensures |a| == 1 ==> StatsOf(a, pending, max, mode).totalRequests == a[0].requests
  {
    if a == [] {
      assert a + b == b;
    } else {
      assert (a + b)[1..] == a[1..] + b;
      TotalRequestsAddUp(a[1..], b, pending, max, mode);
    }
  }
}
