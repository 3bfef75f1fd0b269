/** What the lifecycle monitor's tick can do to a context that a request takes while it runs. The tick
    holds the pool's write lock throughout, but a request needs no lock to claim a context it has
    already found, or to give one back. */
module PoolMonitor {
  import opened Wrappers
  import opened Lifecycle
  import opened PoolSpec
  import opened PoolProtocol
  import opened PoolInvariant
  import opened PoolSafety

  // ----- Dedicated: removal of a context that was idle when looked at -----

  /** The tick in progress looked at `id` in step `k` and found it idle and expired. */
  ghost predicate FoundExpiredAt(scope: Scope, s: Sys, steps: seq<Step>, k: nat, id: nat) {
    && k < |steps| && steps[k] == TickCheck(id)
    && After(scope, s, steps, k).tick.Some? && FindsExpired(scope, After(scope, s, steps, k), id)
    && forall j :: k < j < |steps| ==> steps[j] != TickEnd
  }

  lemma FoundStep(scope: Scope, s: Sys, steps: seq<Step>, last: Step, k: nat, id: nat)
    requires k <= |steps|
    ensures FoundExpiredAt(scope, s, steps + [last], k, id) <==>
              if k == |steps|
              then last == TickCheck(id) && Run(scope, s, steps).tick.Some? && FindsExpired(scope, Run(scope, s, steps), id)
              else FoundExpiredAt(scope, s, steps, k, id) && last != TickEnd
  {
    var longer := steps + [last];
    AfterLast(scope, s, steps, last);
    assert longer[|steps|] == last;
    if k < |steps| {
      assert longer[k] == steps[k];
      if FoundExpiredAt(scope, s, longer, k, id) {
        forall j | k < j < |steps| ensures steps[j] != TickEnd {
          assert longer[j] == steps[j];
        }
      }
      if FoundExpiredAt(scope, s, steps, k, id) && last != TickEnd {
        forall j | k < j < |longer| ensures longer[j] != TickEnd {
          if j < |steps| { assert longer[j] == steps[j]; }
        }
      }
    }
  }

  predicate IsRecorded(s: Sys, id: nat) { s.tick.Some? && id in s.tick.value }

  lemma RecordedStep(scope: Scope, s: Sys, step: Step, id: nat)
    ensures IsRecorded(Next(scope, s, step), id) <==>
              || (IsRecorded(s, id) && step != TickEnd)
              || (step == TickCheck(id) && s.tick.Some? && FindsExpired(scope, s, id))
  {
    if step.Acquire? { AcquireKeepsTheTick(scope, s, step.r, step.dedicatedProxy, step.origin); }
  }

  lemma AcquireKeepsTheTick(scope: Scope, s: Sys, r: nat, dedicatedProxy: bool, origin: Option<Origin>)
    ensures AcquireStep(s, scope, r, dedicatedProxy, origin).tick == s.tick
  {
  }

  /** The tick has a context on its list exactly when it looked at it and found it so. */
  lemma {:induction false} RecordedIff(scope: Scope, s: Sys, steps: seq<Step>, id: nat)
    requires s.tick.None?
    ensures IsRecorded(Run(scope, s, steps), id) <==> exists k: nat :: FoundExpiredAt(scope, s, steps, k, id)
    decreases |steps|
  {
    if steps != [] {
      var earlier, last := steps[..|steps| - 1], steps[|steps| - 1];
      assert steps == earlier + [last];
      RecordedIff(scope, s, earlier, id);
      AfterLast(scope, s, earlier, last);
      RecordedStep(scope, Run(scope, s, earlier), last, id);
      forall k: nat | k <= |earlier|
        ensures FoundExpiredAt(scope, s, steps, k, id) <==>
                  if k == |earlier|
                  then last == TickCheck(id) && Run(scope, s, earlier).tick.Some? && FindsExpired(scope, Run(scope, s, earlier), id)
                  else FoundExpiredAt(scope, s, earlier, k, id) && last != TickEnd
      {
        FoundStep(scope, s, earlier, last, k, id);
      }
      assert FoundExpiredAt(scope, s, steps, |earlier|, id) <==>
               last == TickCheck(id) && Run(scope, s, earlier).tick.Some? && FindsExpired(scope, Run(scope, s, earlier), id);
      if k: nat :| FoundExpiredAt(scope, s, earlier, k, id) && last != TickEnd {
        assert FoundExpiredAt(scope, s, steps, k, id);
      }
      if k: nat :| FoundExpiredAt(scope, s, steps, k, id) {
        assert k < |earlier| ==> FoundExpiredAt(scope, s, earlier, k, id);
      }
    }
  }

  /** Request `r` claimed the context it had looked up in step `j`. */
  ghost predicate AdoptedAt(scope: Scope, s: Sys, steps: seq<Step>, j: nat, r: nat, id: nat) {
    && j < |steps| && steps[j] == Adopt(r)
    && !Holds(After(scope, s, steps, j), r, id) && Holds(After(scope, s, steps, j + 1), r, id)
  }

  lemma OnlyAdoptionTakesAnOldContext(scope: Scope, s: Sys, step: Step, r: nat, id: nat)
    requires Inv(scope, s) && scope.mode.Dedicated? && id in s.heap
    requires Holds(Next(scope, s, step), r, id) && !Holds(s, r, id)
    ensures step == Adopt(r)
  {
  }

  lemma {:induction false} HolderAdopted(scope: Scope, s: Sys, steps: seq<Step>, k: nat, r: nat, id: nat)
    requires Inv(scope, s) && scope.mode.Dedicated? && k <= |steps|
    requires id in After(scope, s, steps, k).heap && !After(scope, s, steps, k).heap[id].busy
    requires Holds(Run(scope, s, steps), r, id)
    ensures exists j: nat :: k <= j && AdoptedAt(scope, s, steps, j, r, id)
    decreases |steps|
  {
    RunKeepsInv(scope, s, steps);
    assert steps[..|steps|] == steps;
    if k < |steps| {
      var earlier, last := steps[..|steps| - 1], steps[|steps| - 1];
      assert steps == earlier + [last];
      AfterLast(scope, s, earlier, last);
      var before := Run(scope, s, earlier);
      RunKeepsInv(scope, s, earlier);
      if Holds(before, r, id) {
        HolderAdopted(scope, s, earlier, k, r, id);
        var j: nat :| k <= j && AdoptedAt(scope, s, earlier, j, r, id);
        assert AdoptedAt(scope, s, steps, j, r, id);
      } else {
        ContextsStay(scope, s, earlier, k, id);
        OnlyAdoptionTakesAnOldContext(scope, before, last, r, id);
        assert After(scope, s, steps, |earlier| + 1) == Run(scope, s, steps);
        assert AdoptedAt(scope, s, steps, |earlier|, r, id);
      }
    }
  }

  lemma {:induction false} ContextsStay(scope: Scope, s: Sys, steps: seq<Step>, k: nat, id: nat)
    requires k <= |steps| && id in After(scope, s, steps, k).heap
    ensures id in Run(scope, s, steps).heap
    decreases |steps|
  {
    assert steps[..|steps|] == steps;
    if k < |steps| {
      var earlier, last := steps[..|steps| - 1], steps[|steps| - 1];
      assert steps == earlier + [last];
      AfterLast(scope, s, earlier, last);
      ContextsStay(scope, s, earlier, k, id);
      HeapGrows(scope, Run(scope, s, earlier), last, id);
    }
  }

  lemma HeapGrows(scope: Scope, s: Sys, step: Step, id: nat)
    requires id in s.heap
    ensures id in Next(scope, s, step).heap
  {
    match step
    case Acquire(r, dedicatedProxy, origin) =>
    case _ =>
  }

  /** In Dedicated another's step takes a held context out of the pool. */
  ghost predicate LosesItsPlace(scope: Scope, s: Sys, step: Step, r: nat, id: nat) {
    id !in Next(scope, s, step).pool && step != Destroy(r)
  }

  lemma OnlyTheTickRemovesAHeldContext(scope: Scope, s: Sys, step: Step, r: nat, id: nat)
    requires Inv(scope, s) && scope.mode.Dedicated? && Holds(s, r, id) && id in s.pool
    ensures LosesItsPlace(scope, s, step, r, id) <==> step == TickEnd && IsRecorded(s, id)
  {
    if step.Acquire? {
      assert AcquireStep(s, scope, step.r, step.dedicatedProxy, step.origin).pool == s.pool;
    } else if step.Destroy? {
      var q := step.r;
      assert q != r && q in s.reqs && s.reqs[q].Holding? ==> !Holds(s, q, id);
    } else if step.RecycleSwap? || step.Built? {
      SwapRemovesOne(s, step, id);
    } else {
      HeldStays(scope, s, step, id);
    }
  }

  lemma HeldStays(scope: Scope, s: Sys, step: Step, id: nat)
    requires Inv(scope, s) && scope.mode.Dedicated? && id in s.pool && s.heap[id].busy
    requires !step.Acquire? && !step.Destroy? && !step.RecycleSwap? && !step.Built?
    ensures id !in Next(scope, s, step).pool <==> step == TickEnd && IsRecorded(s, id)
  {
  }

  /** Exactly when that happens, in any run: the tick looked at the context while it was idle and
      found it expired, the request claimed it after that look, and the tick now ends. */
  lemma HeldContextLosesItsPlaceIff(scope: Scope, populated: nat, now: nat, steps: seq<Step>, step: Step, r: nat, id: nat)
    requires scope.Accepted() && populated <= scope.minContexts && scope.mode.Dedicated?
    requires var s := Run(scope, Start(scope, populated, now), steps); Holds(s, r, id) && id in s.pool
    ensures var start := Start(scope, populated, now);
            LosesItsPlace(scope, Run(scope, start, steps), step, r, id) <==>
              && step == TickEnd
              && exists k: nat, j: nat ::
                   k < j && FoundExpiredAt(scope, start, steps, k, id) && AdoptedAt(scope, start, steps, j, r, id)
  {
    var start := Start(scope, populated, now);
    StartIsInv(scope, populated, now);
    RunKeepsInv(scope, start, steps);
    OnlyTheTickRemovesAHeldContext(scope, Run(scope, start, steps), step, r, id);
    RecordedIff(scope, start, steps, id);
    if k: nat :| FoundExpiredAt(scope, start, steps, k, id) {
      HolderAdopted(scope, start, steps, k, r, id);
      var j: nat :| k <= j && AdoptedAt(scope, start, steps, j, r, id);
      assert k < j;
    }
  }

  // ----- and it does happen -----

  /** A pool of one context, in the middle of its first request at time `at`. */
  function Running(at: nat): Sys {
    Sys(map[0 := Slot(0, true, 0, 0, 1, 0, map[])], [0], 0, map[0 := Holding(0, true)], {}, {}, None, 1, at)
  }

  lemma RunningIsReached(scope: Scope, at: nat) returns (steps: seq<Step>)
    requires scope.Accepted()
    ensures Run(scope, Start(scope, 0, 0), steps) == Running(at)
  {
    var start := Start(scope, 0, 0);
    assert View(start) == [] && Order(LeastUsedRanks([], None, scope.lifecycle, 0)) == [];
    assert ReclaimIdle(start) == start;
    var building := Next(scope, start, Acquire(0, false, None));
    assert building == start.(pending := 1, reqs := map[0 := Building]);
    var held := Next(scope, building, Built(0, 0));
    assert held.reqs == map[0 := Holding(0, false)] && held.pool == [0];
    var counted := Next(scope, held, CountRequest(0));
    assert counted.reqs == map[0 := Holding(0, true)];
    assert Next(scope, counted, Elapse(at)) == Running(at);
    steps := FourSteps(scope, start, Acquire(0, false, None), Built(0, 0), CountRequest(0), Elapse(at));
  }

  /** The same after the request. */
  function Session(): Sys {
    Sys(map[0 := Slot(0, false, 0, 0, 1, 0, map[])], [0], 0, map[], {}, {}, None, 1, 0)
  }

  lemma SessionIsReached(scope: Scope) returns (steps: seq<Step>)
    requires scope.Accepted() && !scope.mode.AlwaysNew?
    ensures Run(scope, Start(scope, 0, 0), steps) == Session()
  {
    var first := RunningIsReached(scope, 0);
    assert Next(scope, Running(0), Release(0)) == Session();
    RunCons(scope, Running(0), Release(0), []);
    RunAppend(scope, Start(scope, 0, 0), first, [Release(0)] + []);
    steps := first + ([Release(0)] + []);
  }

  lemma TwoSteps(scope: Scope, s: Sys, a: Step, b: Step) returns (steps: seq<Step>)
    ensures Run(scope, s, steps) == Next(scope, Next(scope, s, a), b)
  {
    RunCons(scope, s, a, [b] + []);
    RunCons(scope, Next(scope, s, a), b, []);
    steps := [a] + ([b] + []);
  }

  lemma FourSteps(scope: Scope, s: Sys, a: Step, b: Step, c: Step, d: Step) returns (steps: seq<Step>)
    ensures Run(scope, s, steps) == Next(scope, Next(scope, Next(scope, Next(scope, s, a), b), c), d)
  {
    var first := TwoSteps(scope, s, a, b);
    var second := TwoSteps(scope, Next(scope, Next(scope, s, a), b), c, d);
    RunAppend(scope, s, first, second);
    steps := first + second;
  }

  /** In every Dedicated scope that allows a second request and sessions to go idle before they are too
      old: the client comes back in the last moment of its session's idle time, and while its request
      is between finding the context and claiming it, that time runs out and the tick looks at the
      context. The request then holds a context that is in no pool. */
  lemma SweepCanRemoveAHeldContext(scope: Scope) returns (steps: seq<Step>)
    requires scope.Accepted() && scope.mode.Dedicated?
    requires scope.lifecycle.maxRequests > 1 && scope.lifecycle.maxIdleTime <= scope.lifecycle.maxLifetime
    ensures var s := Run(scope, Start(scope, 0, 0), steps);
            exists r, id :: Holds(s, r, id) && id in s.pool && LosesItsPlace(scope, s, TickEnd, r, id)
  {
    var d := scope.lifecycle.maxIdleTime;
    var first := SessionIsReached(scope);
    var back, found := ClientReturns(scope, d);
    var sweep, held := TickLooksFirst(scope, d);
    RunAppend(scope, Session(), back, sweep);
    RunAppend(scope, Start(scope, 0, 0), first, back + sweep);
    steps := first + (back + sweep);
    assert LosesItsPlace(scope, held, TickEnd, 1, 0);
  }

  /** A request that has found the session's context at `at` and not claimed it yet. */
  function Returning(at: nat): Sys { Session().(reqs := map[1 := Looking(0)], now := at) }

  lemma ClientReturns(scope: Scope, d: nat) returns (steps: seq<Step>, found: Sys)
    requires scope.mode.Dedicated? && scope.lifecycle.maxRequests > 1 && d <= scope.lifecycle.maxLifetime
    ensures Run(scope, Session(), steps) == found == Returning(d + 1)
  {
    var late := Next(scope, Session(), Elapse(d));
    found := Next(scope, late, Lookup(1, 0));
    assert found == Returning(d);
    assert !found.heap[0].UsedUp(scope.lifecycle, d);
    assert Next(scope, found, EndIfUsedUp(1)) == found;
    steps := FourSteps(scope, Session(), Elapse(d), Lookup(1, 0), EndIfUsedUp(1), Elapse(1));
    found := Returning(d + 1);
  }

  lemma TickLooksFirst(scope: Scope, d: nat) returns (steps: seq<Step>, held: Sys)
    requires scope.Accepted() && scope.mode.Dedicated? && d == scope.lifecycle.maxIdleTime
    ensures Run(scope, Returning(d + 1), steps) == held
    ensures Holds(held, 1, 0) && 0 in held.pool && 0 !in Next(scope, held, TickEnd).pool
  {
    var late := Returning(d + 1);
    var checked := LookedAt(d + 1);
    assert Next(scope, Next(scope, late, TickBegin), TickCheck(0)) == checked by {
      assert Next(scope, late, TickBegin) == late.(tick := Some(map[]));
      assert FindsExpired(scope, late.(tick := Some(map[])), 0);
    }
    held := Claim(checked, 1, 0);
    AdoptDuringTick(scope, d + 1);
    RunCons(scope, checked, Adopt(1), []);
    var two := TwoSteps(scope, late, TickBegin, TickCheck(0));
    RunAppend(scope, late, two, [Adopt(1)] + []);
    steps := two + ([Adopt(1)] + []);
  }

  /** The same, once the tick has the context on its list. */
  function LookedAt(at: nat): Sys {
    Returning(at).(tick := Some(map[0 := Sighting(Session().heap[0], at)]))
  }

  lemma AdoptDuringTick(scope: Scope, at: nat)
    requires scope.mode.Dedicated?
    ensures var held := Claim(LookedAt(at), 1, 0);
            && Next(scope, LookedAt(at), Adopt(1)) == held
            && Holds(held, 1, 0) && 0 in held.pool && 0 !in Next(scope, held, TickEnd).pool
  {
    assert 0 in Claim(LookedAt(at), 1, 0).tick.value.Keys;
  }

  // ----- Reusable: recycling a context whose stamp is fresh -----

  /** What a sighting still tells about the context: its age and count only grow, and its stamp is the
      one seen or was set since. */
  ghost predicate Faithful(cfg: LifecycleConfig, seen: Sighting, c: Slot, now: nat) {
    && seen.slot.Expired(cfg, seen.at) && seen.at <= now
    && c.createdAt == seen.slot.createdAt && c.cacheMb == seen.slot.cacheMb
    && c.requests >= seen.slot.requests && c.lastUsedAt >= seen.slot.lastUsedAt
    && (c.lastUsedAt == seen.slot.lastUsedAt || c.lastUsedAt >= seen.at)
  }

  ghost predicate Sighted(scope: Scope, s: Sys) {
    && (forall id :: id in s.heap ==> s.heap[id].lastUsedAt <= s.now && id < s.nextId)
    && (s.tick.Some? ==> forall id :: id in s.tick.value ==>
          id in s.heap && Faithful(scope.lifecycle, s.tick.value[id], s.heap[id], s.now))
  }

  /** How a step moves a context that exists. */
  ghost predicate Ages(c: Slot, d: Slot, now: nat) {
    && d.createdAt == c.createdAt && d.cacheMb == c.cacheMb && d.requests >= c.requests
    && (d.lastUsedAt == c.lastUsedAt || d.lastUsedAt == now)
  }

  lemma AcquireAges(scope: Scope, s: Sys, step: Step, id: nat)
    requires step.Acquire? && id in Next(scope, s, step).heap
    ensures id in s.heap && Ages(s.heap[id], Next(scope, s, step).heap[id], s.now)
  {
    if step.r !in s.reqs && WriteFree(s) {
      assert Next(scope, s, step) == AcquireStep(s, scope, step.r, step.dedicatedProxy, step.origin);
      GrantAges(scope, s, step.r, step.dedicatedProxy, step.origin, id);
    } else {
      assert Next(scope, s, step) == s;
    }
  }

  lemma GrantAges(scope: Scope, s: Sys, r: nat, dedicatedProxy: bool, origin: Option<Origin>, id: nat)
    requires id in AcquireStep(s, scope, r, dedicatedProxy, origin).heap
    ensures id in s.heap && Ages(s.heap[id], AcquireStep(s, scope, r, dedicatedProxy, origin).heap[id], s.now)
  {
    if scope.mode.Reusable? {
      ReusableAges(scope, s, r, dedicatedProxy, origin, id);
    } else {
      assert AcquireStep(s, scope, r, dedicatedProxy, origin).heap == s.heap;
    }
  }

  lemma ReusableAges(scope: Scope, s: Sys, r: nat, dedicatedProxy: bool, origin: Option<Origin>, id: nat)
    requires id in AcquireReusable(s, scope, r, dedicatedProxy, origin).heap
    ensures id in s.heap && Ages(s.heap[id], AcquireReusable(s, scope, r, dedicatedProxy, origin).heap[id], s.now)
  {
    DecideIsSound(View(s), s.pending, scope.maxContexts, dedicatedProxy, origin, scope.lifecycle, s.now);
  }

  lemma StepAges(scope: Scope, s: Sys, step: Step, id: nat)
    requires id in s.heap ==> id < s.nextId
    requires id in Next(scope, s, step).heap
    ensures if id in s.heap then Ages(s.heap[id], Next(scope, s, step).heap[id], s.now)
            else Next(scope, s, step).heap[id].lastUsedAt <= s.now
    ensures id < Next(scope, s, step).nextId || id in s.heap
  {
    if step.Acquire? {
      AcquireAges(scope, s, step, id);
    } else if step.Reuse? {
      BestIsBest(LeastUsedRanks(View(s), step.origin, scope.lifecycle, s.now));
    }
  }

  lemma ClockGoesOn(scope: Scope, s: Sys, step: Step)
    ensures Next(scope, s, step).now >= s.now && Next(scope, s, step).nextId >= s.nextId
  {
    match step
    case Acquire(r, dedicatedProxy, origin) =>
    case _ =>
  }

  lemma TickRemembers(scope: Scope, s: Sys, step: Step, id: nat)
    requires IsRecorded(Next(scope, s, step), id)
    ensures var seen := Next(scope, s, step).tick.value[id];
            || (IsRecorded(s, id) && seen == s.tick.value[id])
            || (step == TickCheck(id) && FindsExpired(scope, s, id) && seen == Sighting(s.heap[id], s.now))
  {
    if step.Acquire? { AcquireKeepsTheTick(scope, s, step.r, step.dedicatedProxy, step.origin); }
  }

  lemma StepKeepsSighted(scope: Scope, s: Sys, step: Step)
    requires Sighted(scope, s)
    ensures Sighted(scope, Next(scope, s, step))
  {
    var t := Next(scope, s, step);
    ClockGoesOn(scope, s, step);
    forall id | id in t.heap ensures t.heap[id].lastUsedAt <= t.now && id < t.nextId {
      StepAges(scope, s, step, id);
    }
    if t.tick.Some? {
      forall id | id in t.tick.value
        ensures id in t.heap && Faithful(scope.lifecycle, t.tick.value[id], t.heap[id], t.now)
      {
        TickRemembers(scope, s, step, id);
        HeapGrows(scope, s, step, id);
        StepAges(scope, s, step, id);
      }
    }
  }

  lemma {:induction false} RunKeepsSighted(scope: Scope, s: Sys, steps: seq<Step>)
    requires Sighted(scope, s)
    ensures Sighted(scope, Run(scope, s, steps))
    decreases |steps|
  {
    if steps != [] {
      StepKeepsSighted(scope, s, steps[0]);
      RunKeepsSighted(scope, Next(scope, s, steps[0]), steps[1..]);
    }
  }

  lemma ExpiryLasts(cfg: LifecycleConfig, seen: Sighting, c: Slot, now: nat)
    requires Faithful(cfg, seen, c, now)
    requires c.lastUsedAt == seen.slot.lastUsedAt || !cfg.rotation.Hybrid?
    ensures c.Expired(cfg, now)
  {
  }

  /** The tick takes `id` next. */
  predicate Takes(scope: Scope, s: Sys, id: nat) {
    id !in s.recycling && id in Next(scope, s, TickTake(id)).recycling
  }

  lemma TakenWasSeen(scope: Scope, s: Sys, id: nat)
    requires Takes(scope, s, id)
    ensures scope.mode.Reusable? && IsRecorded(s, id) && id in s.heap && !s.heap[id].busy
  {
  }

  /** Seen expired, and no longer so: some request stamped it since, and neither its age, its count nor
      its cache speaks against it. */
  predicate Recovered(cfg: LifecycleConfig, seen: Sighting, c: Slot, now: nat) {
    c.lastUsedAt != seen.slot.lastUsedAt && !c.UsedUp(cfg, now) && c.cacheMb <= cfg.maxCacheMb
  }

  lemma RecoveredIff(cfg: LifecycleConfig, seen: Sighting, c: Slot, now: nat)
    requires Faithful(cfg, seen, c, now) && now <= seen.at + cfg.maxIdleTime
    ensures !c.Expired(cfg, now) <==> Recovered(cfg, seen, c, now)
  {
    if c.lastUsedAt == seen.slot.lastUsedAt || !cfg.rotation.Hybrid? { ExpiryLasts(cfg, seen, c, now); }
    if !cfg.rotation.Hybrid? { UseLasts(cfg, seen, c, now); }
  }

  lemma UseLasts(cfg: LifecycleConfig, seen: Sighting, c: Slot, now: nat)
    requires Faithful(cfg, seen, c, now) && !cfg.rotation.Hybrid?
    ensures c.UsedUp(cfg, now)
  {
  }

  /** In any run: a context the Reusable tick takes is still expired, unless a request stamped it after
      the tick looked at it. */
  lemma TakenIsExpiredUnlessStamped(scope: Scope, populated: nat, now: nat, steps: seq<Step>, id: nat)
    requires scope.Accepted() && populated <= scope.minContexts
    requires Takes(scope, Run(scope, Start(scope, populated, now), steps), id)
    ensures var s := Run(scope, Start(scope, populated, now), steps);
            && scope.mode.Reusable? && IsRecorded(s, id) && id in s.heap && !s.heap[id].busy
            && (s.heap[id].Expired(scope.lifecycle, s.now) || s.heap[id].lastUsedAt > s.tick.value[id].slot.lastUsedAt)
  {
    var s := Run(scope, Start(scope, populated, now), steps);
    RunKeepsSighted(scope, Start(scope, populated, now), steps);
    TakenWasSeen(scope, s, id);
    if s.heap[id].lastUsedAt == s.tick.value[id].slot.lastUsedAt {
      ExpiryLasts(scope.lifecycle, s.tick.value[id], s.heap[id], s.now);
    }
  }

  /** And exactly when: within the idle time of the tick's look, a context that is taken is not expired if
      and only if a request stamped it since, and neither its age, its count nor its cache speaks
      against it. */
  lemma FreshIsRecycledIff(scope: Scope, populated: nat, now: nat, steps: seq<Step>, id: nat)
    requires scope.Accepted() && populated <= scope.minContexts
    requires Takes(scope, Run(scope, Start(scope, populated, now), steps), id)
    ensures var s := Run(scope, Start(scope, populated, now), steps);
            && IsRecorded(s, id) && id in s.heap
            && (s.now <= s.tick.value[id].at + scope.lifecycle.maxIdleTime ==>
                  (s.heap[id].Expired(scope.lifecycle, s.now) <==>
                     !Recovered(scope.lifecycle, s.tick.value[id], s.heap[id], s.now)))
  {
    var s := Run(scope, Start(scope, populated, now), steps);
    RunKeepsSighted(scope, Start(scope, populated, now), steps);
    TakenWasSeen(scope, s, id);
    if s.now <= s.tick.value[id].at + scope.lifecycle.maxIdleTime {
      RecoveredIff(scope.lifecycle, s.tick.value[id], s.heap[id], s.now);
    }
  }

  /** A request that ends between the tick's look and its claim, and the context it leaves. */
  function EndedDuringTick(scope: Scope, at: nat): Sys {
    Next(scope, Next(scope, Next(scope, Running(at), TickBegin), TickCheck(0)), Release(0))
  }

  lemma FreshIsTaken(scope: Scope, at: nat)
    requires scope.mode.Reusable? && Running(at).heap[0].Expired(scope.lifecycle, at)
    ensures var s := EndedDuringTick(scope, at);
            && 0 in s.heap && s.heap[0] == Slot(0, false, 0, at, 1, 0, map[]) && s.now == at
            && 0 !in s.recycling && 0 in Next(scope, s, TickTake(0)).recycling
  {
    var long := Running(at);
    var ticking := Next(scope, long, TickBegin);
    assert ticking == long.(tick := Some(map[]));
    var checked := Next(scope, ticking, TickCheck(0));
    assert checked == long.(tick := Some(map[0 := Sighting(long.heap[0], at)]));
    assert 0 in EndedDuringTick(scope, at).tick.value;
  }

  /** Which does occur. The tick reads the stamp of a context before it tries the busy flag, so a
      request that outlasts the idle time and ends between the two is recycled as idle although its
      stamp was set that very moment. */
  lemma FreshContextIsRecycled(scope: Scope) returns (steps: seq<Step>)
    requires scope.Accepted() && scope.mode.Reusable? && scope.lifecycle.rotation.Hybrid?
    requires scope.lifecycle.maxRequests > 1 && scope.lifecycle.maxLifetime > scope.lifecycle.maxIdleTime
    ensures var s := Run(scope, Start(scope, 0, 0), steps);
            exists id :: id in s.heap && s.heap[id].lastUsedAt == s.now && !s.heap[id].Expired(scope.lifecycle, s.now)
                         && id !in s.recycling && id in Next(scope, s, TickTake(id)).recycling
  {
    var d := scope.lifecycle.maxIdleTime + 1;
    FreshIsTaken(scope, d);
    var first := RunningIsReached(scope, d);
    var two := TwoSteps(scope, Running(d), TickBegin, TickCheck(0));
    var one := [Release(0)] + [];
    RunCons(scope, Next(scope, Next(scope, Running(d), TickBegin), TickCheck(0)), Release(0), []);
    RunAppend(scope, Running(d), two, one);
    RunAppend(scope, Start(scope, 0, 0), first, two + one);
    steps := first + (two + one);
    assert Run(scope, Start(scope, 0, 0), steps) == EndedDuringTick(scope, d);
  }
}
