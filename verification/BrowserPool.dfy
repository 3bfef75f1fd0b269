/** The context pool as the worker keeps it: a vector of shared context objects and a counter of
    reserved slots, updated in place.

    Every method is one critical section of `PoolProtocol`. `Shows(s)` says that the fields are those
    of a state `s` that some run of that transition system reaches; a method takes the state as a
    ghost parameter, and its contract names the step whose state the fields show afterwards. What the
    protocol proves about its runs therefore holds of these objects. */
module BrowserPool {
  import opened Wrappers
  import opened Lifecycle
  import opened PoolSpec
  import opened PoolProtocol
  import opened PoolInvariant
  import opened PoolSafety

  class BrowserContext {
    const id: nat
    const createdAt: nat
    var isBusy: bool
    var lastUsedAt: nat
    var totalRequests: nat
    var cacheMb: nat
    var blockedOrigins: map<Origin, nat>

    constructor (id: nat, now: nat, busy: bool)
      ensures View() == FreshSlot(id, busy, now)
    {
      this.id, createdAt, isBusy, lastUsedAt := id, now, busy, now;
      totalRequests, cacheMb, blockedOrigins := 0, 0, map[];
    }

    function View(): Slot
      reads this
    {
      Slot(id, isBusy, createdAt, lastUsedAt, totalRequests, cacheMb, blockedOrigins)
    }

    /** Compare-and-swap of the busy flag from clear to set. */
    method TryClaim() returns (won: bool)
      modifies this
      ensures won == !old(isBusy)
      ensures View() == old(View()).(busy := true)
    {
      won := !isBusy;
      if won { isBusy := true; }
    }

    /** The busy guard's drop: the stamp first, the flag last. */
    method Release(now: nat)
      modifies this
      ensures View() == old(View()).(busy := false, lastUsedAt := now)
    {
      lastUsedAt := now;
      isBusy := false;
    }
  }

  ghost function Views(contexts: seq<BrowserContext>): (v: seq<Slot>)
    reads contexts
    ensures |v| == |contexts|
    ensures forall i :: 0 <= i < |v| ==> v[i] == contexts[i].View()
  {
    seq(|contexts|, i requires 0 <= i < |contexts| reads contexts => contexts[i].View())
  }

  /** Positions of the eligible contexts, least used first. */
  method LeastUsedCandidates(contexts: seq<BrowserContext>, origin: Option<Origin>, cfg: LifecycleConfig, now: nat)
    returns (candidates: seq<nat>)
    ensures candidates == Order(LeastUsedRanks(Views(contexts), origin, cfg, now))
  {
    var ranks: Ranks := [];
    for i := 0 to |contexts|
      invariant |ranks| == i
      invariant forall j :: 0 <= j < i ==> ranks[j] == LeastUsedRank(contexts[j].View(), origin, cfg, now)
    {
      var c := contexts[i].View();
      ranks := ranks + [if !c.busy && !c.UsedUp(cfg, now) && (origin.None? || !c.QuarantinedFor(origin.value, now))
                        then Some(c.requests) else None];
    }
    assert ranks == LeastUsedRanks(Views(contexts), origin, cfg, now);
    candidates := Order(ranks);
  }

  /** The idle contexts quarantined for `origin` and not used up, first to recover first. */
  method QuarantinedCandidates(contexts: seq<BrowserContext>, origin: Origin, cfg: LifecycleConfig, now: nat)
    returns (candidates: seq<nat>)
    ensures candidates == Order(SoonestRanks(Views(contexts), origin, cfg, now))
  {
    var ranks: Ranks := [];
    for i := 0 to |contexts|
      invariant |ranks| == i
      invariant forall j :: 0 <= j < i ==> ranks[j] == SoonestRank(contexts[j].View(), origin, cfg, now)
    {
      var c := contexts[i].View();
      ranks := ranks + [if !c.busy && !c.UsedUp(cfg, now) && c.QuarantinedFor(origin, now)
                        then Some(c.blocked[origin]) else None];
    }
    assert ranks == SoonestRanks(Views(contexts), origin, cfg, now);
    candidates := Order(ranks);
  }

  /** The idle used-up contexts, oldest first. */
  method UsedUpCandidates(contexts: seq<BrowserContext>, cfg: LifecycleConfig, now: nat)
    returns (candidates: seq<nat>)
    ensures candidates == Order(UsedUpRanks(Views(contexts), cfg, now))
  {
    var ranks: Ranks := [];
    for i := 0 to |contexts|
      invariant |ranks| == i
      invariant forall j :: 0 <= j < i ==> ranks[j] == UsedUpRank(contexts[j].View(), cfg, now)
    {
      var c := contexts[i].View();
      ranks := ranks + [if !c.busy && c.UsedUp(cfg, now) then Some(c.createdAt) else None];
    }
    assert ranks == UsedUpRanks(Views(contexts), cfg, now);
    candidates := Order(ranks);
  }

  function Busied(v: seq<Slot>, i: nat): seq<Slot>
    requires i < |v|
  {
    v[i := v[i].(busy := true)]
  }

  function Without(v: seq<Slot>, i: nat): seq<Slot>
    requires i < |v|
  {
    v[..i] + v[i + 1..]
  }

  ghost predicate AllDistinct(contexts: seq<BrowserContext>) {
    forall i, j :: 0 <= i < j < |contexts| ==> contexts[i] != contexts[j]
  }

  method RemoveAt(contexts: seq<BrowserContext>, i: nat) returns (rest: seq<BrowserContext>)
    requires i < |contexts|
    ensures rest == contexts[..i] + contexts[i + 1..]
    ensures Views(rest) == Without(Views(contexts), i)
  {
    rest := contexts[..i] + contexts[i + 1..];
  }

  /** The first candidate whose flag is still clear, now set; a lost one is skipped. */
  method ClaimFirst(contexts: seq<BrowserContext>, candidates: seq<nat>) returns (won: Option<nat>)
    requires AllDistinct(contexts)
    requires forall j :: 0 <= j < |candidates| ==> candidates[j] < |contexts|
    modifies contexts
    ensures won.None? ==>
              && (forall j :: 0 <= j < |candidates| ==> old(Views(contexts))[candidates[j]].busy)
              && Views(contexts) == old(Views(contexts))
    ensures won.Some? ==>
              && won.value < |contexts| && Views(contexts) == Busied(old(Views(contexts)), won.value)
              && (exists j :: 0 <= j < |candidates| && candidates[j] == won.value && !old(Views(contexts))[candidates[j]].busy
                   && (forall k :: 0 <= k < j ==> old(Views(contexts))[candidates[k]].busy))
  {
    ghost var v := Views(contexts);
    for i := 0 to |candidates|
      invariant Views(contexts) == v
      invariant forall j :: 0 <= j < i ==> v[candidates[j]].busy
    {
      var c := contexts[candidates[i]];
      assert c.View() == v[candidates[i]];
      var ok := c.TryClaim();
      if ok {
        assert Views(contexts) == Busied(v, candidates[i]);
        return Some(candidates[i]);
      }
      assert Views(contexts) == v;
    }
    won := None;
  }

  lemma FirstIsIdle(slots: seq<Slot>, ranks: Ranks)
    requires |ranks| == |slots| && forall i :: 0 <= i < |ranks| && ranks[i].Some? ==> !slots[i].busy
    ensures forall j :: 0 <= j < |Order(ranks)| ==> Order(ranks)[j] < |slots| && !slots[Order(ranks)[j]].busy
  {
    forall j | 0 <= j < |Order(ranks)| ensures Order(ranks)[j] < |slots| && !slots[Order(ranks)[j]].busy {
      assert Order(ranks)[j] in Order(ranks);
      assert Ranked(ranks, Order(ranks)[j]);
    }
  }

  method ClaimLeastUsedIdle(contexts: seq<BrowserContext>, origin: Option<Origin>, cfg: LifecycleConfig, now: nat)
    returns (won: Option<nat>)
    requires AllDistinct(contexts)
    modifies contexts
    ensures won == Best(LeastUsedRanks(old(Views(contexts)), origin, cfg, now))
    ensures won.None? ==> Views(contexts) == old(Views(contexts))
    ensures won.Some? ==> won.value < |contexts| && Views(contexts) == Busied(old(Views(contexts)), won.value)
  {
    var candidates := LeastUsedCandidates(contexts, origin, cfg, now);
    FirstIsIdle(Views(contexts), LeastUsedRanks(Views(contexts), origin, cfg, now));
    won := ClaimFirst(contexts, candidates);
  }

  method ClaimSoonestUnquarantined(contexts: seq<BrowserContext>, origin: Origin, cfg: LifecycleConfig, now: nat)
    returns (won: Option<nat>)
    requires AllDistinct(contexts)
    modifies contexts
    ensures won == Best(SoonestRanks(old(Views(contexts)), origin, cfg, now))
    ensures won.None? ==> Views(contexts) == old(Views(contexts))
    ensures won.Some? ==> won.value < |contexts| && Views(contexts) == Busied(old(Views(contexts)), won.value)
  {
    var candidates := QuarantinedCandidates(contexts, origin, cfg, now);
    FirstIsIdle(Views(contexts), SoonestRanks(Views(contexts), origin, cfg, now));
    won := ClaimFirst(contexts, candidates);
  }

  /** Claims the oldest idle used-up context; the caller takes it out of the vector. */
  method ClaimUsedUp(contexts: seq<BrowserContext>, cfg: LifecycleConfig, now: nat)
    returns (won: Option<nat>)
    requires AllDistinct(contexts)
    modifies contexts
    ensures won == Best(UsedUpRanks(old(Views(contexts)), cfg, now))
    ensures won.None? ==> Views(contexts) == old(Views(contexts))
    ensures won.Some? ==> won.value < |contexts| && Views(contexts) == Busied(old(Views(contexts)), won.value)
  {
    var candidates := UsedUpCandidates(contexts, cfg, now);
    FirstIsIdle(Views(contexts), UsedUpRanks(Views(contexts), cfg, now));
    won := ClaimFirst(contexts, candidates);
  }

  function NamedIndex(g: Grant): Option<nat> {
    match g
    case Claimed(i) => Some(i)
    case Replaced(i) => Some(i)
    case _ => None
  }

  /** The order of get_or_create_context: an eligible idle context, a free slot, the slot of a
      used-up context, a quarantined context, nothing. */
  method DecideLocked(contexts: seq<BrowserContext>, pending: nat, max: nat, dedicatedProxy: bool,
                      origin: Option<Origin>, cfg: LifecycleConfig, now: nat) returns (g: Grant)
    requires AllDistinct(contexts)
    modifies contexts
    ensures g == Decide(old(Views(contexts)), pending, max, dedicatedProxy, origin, cfg, now)
    ensures NamedIndex(g).None? ==> Views(contexts) == old(Views(contexts))
    ensures NamedIndex(g).Some? ==>
              NamedIndex(g).value < |contexts| && Views(contexts) == Busied(old(Views(contexts)), NamedIndex(g).value)
  {
    ghost var v := Views(contexts);
    if !dedicatedProxy {
      var won := ClaimLeastUsedIdle(contexts, origin, cfg, now);
      if won.Some? { return Claimed(won.value); }
    }
    if |contexts| + pending < max { return Reserved; }
    var usedUp := ClaimUsedUp(contexts, cfg, now);
    if usedUp.Some? { return Replaced(usedUp.value); }
    if origin.Some? && !dedicatedProxy {
      var soonest := ClaimSoonestUnquarantined(contexts, origin.value, cfg, now);
      if soonest.Some? { return Claimed(soonest.value); }
    }
    g := Refused;
  }

  // ----- what each step does to the pool's contents -----

  lemma SlotIdsArePoolIds(scope: Scope, s: Sys)
    requires Reachable(scope, s)
    ensures forall i :: 0 <= i < |s.pool| ==> s.pool[i] in s.heap && View(s)[i].id == s.pool[i]
    ensures forall i, j :: 0 <= i < j < |s.pool| ==> View(s)[i].id != View(s)[j].id
  {
    ReachableIsInv(scope, s);
    assert forall i :: 0 <= i < |s.pool| ==> s.pool[i] in s.pool;
  }

  lemma ClaimView(scope: Scope, s: Sys, r: nat, i: nat)
    requires Reachable(scope, s) && i < |s.pool| && s.pool[i] in s.heap
    ensures View(Claim(s, r, s.pool[i])) == Busied(View(s), i)
  {
    SlotIdsArePoolIds(scope, s);
    assert forall j :: 0 <= j < |s.pool| && j != i ==> s.pool[j] != s.pool[i];
  }

  lemma ReuseResult(scope: Scope, s: Sys, r: nat, origin: Option<Origin>, v: seq<Slot>, best: Option<nat>)
    returns (t: Sys)
    requires Reachable(scope, s) && scope.mode.Reusable? && r !in s.reqs && s.tick.None?
    requires v == View(s) && best == Best(LeastUsedRanks(v, origin, scope.lifecycle, s.now))
    ensures t == Next(scope, s, Reuse(r, origin)) && Reachable(scope, t) && t.pending == s.pending
    ensures best.None? ==> t == s
    ensures best.Some? ==> best.value < |v| && View(t) == Busied(v, best.value) && Holds(t, r, v[best.value].id)
  {
    BestIsBest(LeastUsedRanks(View(s), origin, scope.lifecycle, s.now));
    SlotIdsArePoolIds(scope, s);
    NextIsReachable(scope, s, Reuse(r, origin));
    t := Next(scope, s, Reuse(r, origin));
    if best.Some? { ClaimView(scope, s, r, best.value); }
  }

  // ----- removal by id -----

  function DropSlots(v: seq<Slot>, gone: set<nat>): seq<Slot> {
    if v == [] then [] else (if v[0].id in gone then [] else [v[0]]) + DropSlots(v[1..], gone)
  }

  lemma {:induction false} DroppedView(s: Sys, pool: seq<nat>, gone: set<nat>)
    requires forall id :: id in pool ==> At(s, id).id == id
    ensures ViewOf(s, WithoutIds(pool, gone)) == DropSlots(ViewOf(s, pool), gone)
  {
    if pool != [] {
      var head, tail := pool[0], pool[1..];
      assert pool == [head] + tail && head in pool;
      ViewCons(s, head, tail);
      var v := ViewOf(s, pool);
      assert v[0] == At(s, head) && v[1..] == ViewOf(s, tail);
      assert forall id :: id in tail ==> id in pool;
      DroppedView(s, tail, gone);
      if head !in gone { ViewCons(s, head, WithoutIds(tail, gone)); }
    }
  }

  lemma {:induction false} DropAt(v: seq<Slot>, i: nat)
    requires i < |v| && forall j :: 0 <= j < |v| && j != i ==> v[j].id != v[i].id
    ensures DropSlots(v, {v[i].id}) == Without(v, i)
  {
    if i == 0 {
      DropNone(v[1..], v[0].id);
    } else {
      DropAt(v[1..], i - 1);
      assert Without(v, i) == [v[0]] + Without(v[1..], i - 1);
    }
  }

  lemma {:induction false} DropNone(v: seq<Slot>, id: nat)
    requires forall j :: 0 <= j < |v| ==> v[j].id != id
    ensures DropSlots(v, {id}) == v
  {
    if v != [] { DropNone(v[1..], id); }
  }

  lemma SameView(s: Sys, t: Sys, pool: seq<nat>)
    requires forall id :: id in pool ==> At(t, id) == At(s, id)
    ensures ViewOf(t, pool) == ViewOf(s, pool)
  {
  }

  lemma RemovedView(scope: Scope, s: Sys, i: nat)
    requires Reachable(scope, s) && i < |s.pool|
    ensures ViewOf(s, WithoutIds(s.pool, {s.pool[i]})) == Without(View(s), i)
  {
    SlotIdsArePoolIds(scope, s);
    DroppedView(s, s.pool, {s.pool[i]});
    DropAt(View(s), i);
  }

  lemma ReplacedView(scope: Scope, s: Sys, i: nat, t: Sys)
    requires Reachable(scope, s) && i < |s.pool| && s.pool[i] in s.heap
    requires t.heap == SetBusy(s.heap, s.pool[i]) && t.pool == WithoutIds(s.pool, {s.pool[i]})
    ensures View(t) == Without(View(s), i)
  {
    RemovedView(scope, s, i);
    SameView(s, t, t.pool);
  }

  lemma AcquireResult(scope: Scope, s: Sys, r: nat, dedicatedProxy: bool, origin: Option<Origin>, v: seq<Slot>, g: Grant)
    returns (t: Sys)
    requires Reachable(scope, s) && scope.mode.Reusable? && r !in s.reqs && WriteFree(s) && v == View(s)
    requires g == Decide(v, s.pending, scope.maxContexts, dedicatedProxy, origin, scope.lifecycle, s.now)
    ensures t == Next(scope, s, Acquire(r, dedicatedProxy, origin)) && Reachable(scope, t)
    ensures g.Claimed? ==> g.index < |v| && View(t) == Busied(v, g.index) && t.pending == s.pending
    ensures g.Reserved? ==> View(t) == v && t.pending == s.pending + 1
    ensures g.Replaced? ==> g.index < |v| && View(t) == Without(v, g.index) && t.pending == s.pending + 1
    ensures g.Refused? ==> t == s
  {
    DecideIsSound(v, s.pending, scope.maxContexts, dedicatedProxy, origin, scope.lifecycle, s.now);
    SlotIdsArePoolIds(scope, s);
    NextIsReachable(scope, s, Acquire(r, dedicatedProxy, origin));
    t := Next(scope, s, Acquire(r, dedicatedProxy, origin));
    match g
    case Claimed(i) => ClaimView(scope, s, r, i);
    case Replaced(i) => ReplacedView(scope, s, i, t);
    case _ =>
  }

  lemma ReserveResult(scope: Scope, s: Sys, r: nat, dedicatedProxy: bool, origin: Option<Origin>, v: seq<Slot>)
    returns (t: Sys)
    requires Reachable(scope, s) && !scope.mode.Reusable? && r !in s.reqs && WriteFree(s)
    requires v == if scope.mode.AlwaysNew? then BusyOnly(View(s)) else View(s)
    ensures t == Next(scope, s, Acquire(r, dedicatedProxy, origin)) && Reachable(scope, t)
    ensures View(t) == v
    ensures t.pending == s.pending + (if |v| + s.pending < scope.maxContexts then 1 else 0)
    ensures r in t.reqs <==> |v| + s.pending < scope.maxContexts
  {
    NextIsReachable(scope, s, Acquire(r, dedicatedProxy, origin));
    t := Next(scope, s, Acquire(r, dedicatedProxy, origin));
    if scope.mode.AlwaysNew? {
      ReclaimedView(s, s.pool, IdleIds(s));
      assert View(ReclaimIdle(s)) == v;
    } else {
      assert View(t) == View(s);
    }
  }

  lemma BuiltResult(scope: Scope, s: Sys, r: nat, createdAt: nat) returns (t: Sys)
    requires Reachable(scope, s) && r in s.reqs && s.reqs[r].Building? && WriteFree(s) && createdAt <= s.now
    ensures t == Next(scope, s, Built(r, createdAt)) && Reachable(scope, t)
    ensures View(t) == View(s) + [FreshSlot(s.nextId, true, createdAt)]
    ensures s.pending > 0 && t.pending == s.pending - 1
    ensures forall i :: 0 <= i < |s.pool| ==> View(s)[i].id != s.nextId
  {
    ReachableIsInv(scope, s);
    BuildersEnd(s.reqs, r);
    SlotIdsArePoolIds(scope, s);
    NextIsReachable(scope, s, Built(r, createdAt));
    t := Next(scope, s, Built(r, createdAt));
  }

  predicate RemovesById(s: Sys, step: Step, id: nat) {
    (step.Destroy? && Holds(s, step.r, id)) || (step == Cleanup(id) && id in s.cleanups)
  }

  lemma RemovalTouchesThePoolOnly(scope: Scope, s: Sys, step: Step, id: nat)
    requires WriteFree(s) && RemovesById(s, step, id)
    ensures var t := Next(scope, s, step);
            t.pool == WithoutIds(s.pool, {id}) && t.heap == s.heap && t.pending == s.pending
  {
  }

  lemma RemovalResult(scope: Scope, s: Sys, step: Step, id: nat) returns (t: Sys)
    requires Reachable(scope, s) && WriteFree(s) && RemovesById(s, step, id)
    ensures t == Next(scope, s, step) && Reachable(scope, t)
    ensures View(t) == DropSlots(View(s), {id}) && t.pending == s.pending
  {
    SlotIdsArePoolIds(scope, s);
    NextIsReachable(scope, s, step);
    RemovalTouchesThePoolOnly(scope, s, step, id);
    t := Next(scope, s, step);
    DroppedView(s, s.pool, {id});
    SameView(s, t, t.pool);
  }

  lemma EndResult(scope: Scope, s: Sys, r: nat, id: nat) returns (t: Sys)
    requires Reachable(scope, s) && WriteFree(s) && r in s.reqs && s.reqs[r] == Looking(id) && id in s.heap
    ensures t == Next(scope, s, EndIfUsedUp(r)) && Reachable(scope, t) && t.pending == s.pending
    ensures var ended := id in s.pool && !s.heap[id].busy && s.heap[id].UsedUp(scope.lifecycle, s.now);
            && View(t) == (if ended then DropSlots(View(s), {id}) else View(s))
            && (ended <==> r !in t.reqs)
  {
    NextIsReachable(scope, s, EndIfUsedUp(r));
    t := Next(scope, s, EndIfUsedUp(r));
    assert t == EndStep(s, scope, r, id) && t.pending == s.pending;
    EndStepView(scope, s, r, id, t);
  }

  lemma EndStepView(scope: Scope, s: Sys, r: nat, id: nat, t: Sys)
    requires Reachable(scope, s) && r in s.reqs && id in s.heap && t == EndStep(s, scope, r, id)
    ensures var ended := id in s.pool && !s.heap[id].busy && s.heap[id].UsedUp(scope.lifecycle, s.now);
            && View(t) == (if ended then DropSlots(View(s), {id}) else View(s))
            && (ended <==> r !in t.reqs)
  {
    if t != s {
      SlotIdsArePoolIds(scope, s);
      DroppedView(s, s.pool, {id});
      SameView(s, t, t.pool);
    }
  }

  lemma ReclaimResult(scope: Scope, s: Sys) returns (t: Sys)
    requires Reachable(scope, s) && scope.mode.AlwaysNew? && WriteFree(s)
    ensures t == Next(scope, s, Reclaim) && Reachable(scope, t)
    ensures View(t) == BusyOnly(View(s)) && t.pending == s.pending
  {
    NextIsReachable(scope, s, Reclaim);
    t := Next(scope, s, Reclaim);
    ReclaimedView(s, s.pool, IdleIds(s));
    SameView(s, t, t.pool);
  }

  lemma {:induction false} BusyDoesNotMatter(v: seq<Slot>, w: seq<Slot>, id: nat)
    requires |v| == |w| && forall i :: 0 <= i < |v| ==> w[i].id == v[i].id && (v[i].id != id ==> w[i] == v[i])
    ensures DropSlots(w, {id}) == DropSlots(v, {id})
  {
    if v != [] { BusyDoesNotMatter(v[1..], w[1..], id); }
  }

  /** A tick nothing interleaves with: every context of `ids` is looked at while the lock is held. */
  function Checked(scope: Scope, s: Sys, ids: seq<nat>): Sys
    decreases |ids|
  {
    if ids == [] then s else Checked(scope, Next(scope, s, TickCheck(ids[0])), ids[1..])
  }

  function SweepAll(scope: Scope, s: Sys, ids: seq<nat>): Sys {
    Next(scope, Checked(scope, Next(scope, s, TickBegin), ids), TickEnd)
  }

  function Elements(ids: seq<nat>): set<nat> { set id | id in ids }

  lemma {:induction false} CheckedList(scope: Scope, s: Sys, ids: seq<nat>)
    requires Reachable(scope, s) && s.tick.Some? && forall id :: id in ids ==> FindsExpired(scope, s, id)
    ensures var t := Checked(scope, s, ids);
            && Reachable(scope, t) && t.tick.Some? && t == s.(tick := t.tick)
            && t.tick.value.Keys == s.tick.value.Keys + Elements(ids)
    decreases |ids|
  {
    if ids != [] {
      var t := Next(scope, s, TickCheck(ids[0]));
      NextIsReachable(scope, s, TickCheck(ids[0]));
      assert FindsExpired(scope, s, ids[0]);
      assert t == s.(tick := Some(s.tick.value[ids[0] := Sighting(s.heap[ids[0]], s.now)]));
      forall id | id in ids[1..] ensures FindsExpired(scope, t, id) {
        assert FindsExpired(scope, s, id);
      }
      CheckedList(scope, t, ids[1..]);
      assert Elements(ids) == {ids[0]} + Elements(ids[1..]);
    }
  }

  lemma SweepPool(scope: Scope, s: Sys, ids: seq<nat>)
    requires Reachable(scope, s) && scope.mode.Dedicated? && WriteFree(s)
    requires forall id :: id in ids ==> FindsExpired(scope, s, id)
    ensures var t := SweepAll(scope, s, ids);
            Reachable(scope, t) && t == s.(pool := WithoutIds(s.pool, Elements(ids)))
  {
    var begun := Next(scope, s, TickBegin);
    NextIsReachable(scope, s, TickBegin);
    assert begun == s.(tick := Some(map[]));
    forall id | id in ids ensures FindsExpired(scope, begun, id) {
      assert FindsExpired(scope, s, id);
    }
    CheckedList(scope, begun, ids);
    var checked := Checked(scope, begun, ids);
    assert begun.tick.value.Keys == {} && checked.tick.value.Keys == Elements(ids);
    NextIsReachable(scope, checked, TickEnd);
    assert Next(scope, checked, TickEnd) == checked.(pool := WithoutIds(s.pool, Elements(ids)), tick := None);
  }

  lemma SweepResult(scope: Scope, s: Sys, ids: seq<nat>)
    requires Reachable(scope, s) && scope.mode.Dedicated? && WriteFree(s)
    requires forall id :: id in ids ==> FindsExpired(scope, s, id)
    ensures var t := SweepAll(scope, s, ids);
            Reachable(scope, t) && View(t) == DropSlots(View(s), Elements(ids)) && t.pending == s.pending
  {
    SweepPool(scope, s, ids);
    SlotIdsArePoolIds(scope, s);
    DroppedView(s, s.pool, Elements(ids));
    assert View(SweepAll(scope, s, ids)) == ViewOf(s, WithoutIds(s.pool, Elements(ids)));
  }

  /** The slots a removal hands back. */
  function KeepSlots(v: seq<Slot>, ids: set<nat>): seq<Slot> {
    if v == [] then [] else (if v[0].id in ids then [v[0]] else []) + KeepSlots(v[1..], ids)
  }

  lemma {:induction false} SplitLast(v: seq<Slot>, last: Slot, gone: set<nat>)
    ensures DropSlots(v + [last], gone) == DropSlots(v, gone) + (if last.id in gone then [] else [last])
    ensures KeepSlots(v + [last], gone) == KeepSlots(v, gone) + (if last.id in gone then [last] else [])
  {
    if v == [] {
      assert v + [last] == [last];
    } else {
      assert (v + [last])[1..] == v[1..] + [last];
      SplitLast(v[1..], last, gone);
    }
  }

  lemma ViewsAppend(contexts: seq<BrowserContext>, c: BrowserContext)
    ensures Views(contexts + [c]) == Views(contexts) + [c.View()]
  {
  }

  lemma BusyOnlyAt(v: seq<Slot>, i: nat, kept: seq<Slot>)
    requires i < |v| && kept + BusyOnly(v[i..]) == BusyOnly(v)
    ensures (if v[i].busy then kept + [v[i]] else kept) + BusyOnly(v[i + 1..]) == BusyOnly(v)
  {
    assert v[i..][0] == v[i] && v[i..][1..] == v[i + 1..];
  }

  /** The busy contexts of a vector in order, and the idle ones. */
  method RetainBusy(contexts: seq<BrowserContext>) returns (kept: seq<BrowserContext>, leaked: seq<BrowserContext>)
    ensures Views(kept) == BusyOnly(Views(contexts))
    ensures forall c :: c in kept <==> c in contexts && c.isBusy
    ensures forall c :: c in leaked <==> c in contexts && !c.isBusy
  {
    kept, leaked := [], [];
    ghost var v := Views(contexts);
    for i := 0 to |contexts|
      invariant Views(kept) + BusyOnly(v[i..]) == BusyOnly(v)
      invariant forall c :: c in kept ==> c in contexts && c.isBusy
      invariant forall c :: c in leaked ==> c in contexts && !c.isBusy
      invariant forall k :: 0 <= k < i ==> contexts[k] in kept || contexts[k] in leaked
    {
      BusyOnlyAt(v, i, Views(kept));
      assert contexts[i].View() == v[i];
      if contexts[i].isBusy {
        ViewsAppend(kept, contexts[i]);
        kept := kept + [contexts[i]];
      } else {
        leaked := leaked + [contexts[i]];
      }
    }
  }

  method CreateIdle(n: nat, now: nat) returns (contexts: seq<BrowserContext>)
    ensures |contexts| == n && forall i :: 0 <= i < n ==> contexts[i].View() == FreshSlot(i, false, now)
    ensures forall c :: c in contexts ==> fresh(c)
  {
    contexts := [];
    for i := 0 to n
      invariant |contexts| == i && forall k :: 0 <= k < i ==> contexts[k].View() == FreshSlot(k, false, now)
      invariant forall c :: c in contexts ==> fresh(c)
    {
      var context := new BrowserContext(i, now, false);
      contexts := contexts + [context];
    }
  }

  /** Takes every context whose id is in `gone` out of a vector, keeping the order of the rest. */
  method Retain(contexts: seq<BrowserContext>, gone: set<nat>) returns (kept: seq<BrowserContext>, removed: seq<BrowserContext>)
    ensures Views(kept) == DropSlots(Views(contexts), gone)
    ensures Views(removed) == KeepSlots(Views(contexts), gone)
    ensures forall k :: 0 <= k < |kept| ==> kept[k].id !in gone
  {
    kept, removed := [], [];
    for i := 0 to |contexts|
      invariant Views(kept) == DropSlots(Views(contexts[..i]), gone)
      invariant Views(removed) == KeepSlots(Views(contexts[..i]), gone)
      invariant forall k :: 0 <= k < |kept| ==> kept[k].id !in gone
    {
      var c := contexts[i];
      assert contexts[..i + 1] == contexts[..i] + [c];
      ViewsAppend(contexts[..i], c);
      SplitLast(Views(contexts[..i]), c.View(), gone);
      if c.id in gone {
        ViewsAppend(removed, c);
        removed := removed + [c];
      } else {
        ViewsAppend(kept, c);
        kept := kept + [c];
      }
    }
    assert contexts[..|contexts|] == contexts;
  }

  // ----- recycling and single-context updates -----

  /** The first `n` contexts claimed, one RecycleClaim step each. */
  function ClaimExpiredUpTo(scope: Scope, s: Sys, n: nat): Sys
    requires n <= |s.pool|
  {
    if n == 0 then s else RecycleClaimStep(ClaimExpiredUpTo(scope, s, n - 1), scope, s.pool[n - 1])
  }

  function Expiring(v: seq<Slot>, n: nat, cfg: LifecycleConfig, now: nat): (w: seq<Slot>)
    requires n <= |v|
    ensures |w| == |v|
    ensures forall i :: 0 <= i < |v| ==>
              w[i] == if i < n && !v[i].busy && v[i].Expired(cfg, now) then v[i].(busy := true) else v[i]
  {
    seq(|v|, i requires 0 <= i < |v| =>
      if i < n && !v[i].busy && v[i].Expired(cfg, now) then v[i].(busy := true) else v[i])
  }

  function ExpiredIdle(v: seq<Slot>, n: nat, cfg: LifecycleConfig, now: nat): (claimed: seq<nat>)
    requires n <= |v|
    ensures forall k :: k in claimed <==> 0 <= k < n && !v[k].busy && v[k].Expired(cfg, now)
  {
    if n == 0 then []
    else if !v[n - 1].busy && v[n - 1].Expired(cfg, now) then ExpiredIdle(v, n - 1, cfg, now) + [n - 1]
    else ExpiredIdle(v, n - 1, cfg, now)
  }

  lemma ExpiringStep(v: seq<Slot>, i: nat, cfg: LifecycleConfig, now: nat)
    requires i < |v|
    ensures var w := Expiring(v, i, cfg, now);
            && w[i] == v[i]
            && Expiring(v, i + 1, cfg, now) == if !w[i].busy && w[i].Expired(cfg, now) then Busied(w, i) else w
  {
  }

  method ClaimIfExpired(all: seq<BrowserContext>, i: nat, cfg: LifecycleConfig, now: nat) returns (won: bool)
    requires AllDistinct(all) && i < |all|
    modifies all
    ensures won <==> old(!all[i].isBusy && all[i].View().Expired(cfg, now))
    ensures Views(all) == if won then Busied(old(Views(all)), i) else old(Views(all))
  {
    ghost var v := Views(all);
    won := false;
    if all[i].View().Expired(cfg, now) {
      won := all[i].TryClaim();
    }
    assert Views(all) == if won then Busied(v, i) else v;
  }

  method ClaimEachExpired(all: seq<BrowserContext>, cfg: LifecycleConfig, now: nat) returns (claimed: seq<nat>)
    requires AllDistinct(all)
    modifies all
    ensures Views(all) == Expiring(old(Views(all)), |all|, cfg, now)
    ensures claimed == ExpiredIdle(old(Views(all)), |all|, cfg, now)
  {
    claimed := [];
    ghost var v := Views(all);
    for i := 0 to |all|
      invariant Views(all) == Expiring(v, i, cfg, now)
      invariant claimed == ExpiredIdle(v, i, cfg, now)
    {
      ghost var w := Views(all);
      ExpiringStep(v, i, cfg, now);
      assert all[i].View() == w[i];
      var index: nat := i;
      var won := ClaimIfExpired(all, index, cfg, now);
      if won { claimed := claimed + [index]; }
    }
  }

  /** Only the busy flags of `w` differ from `s`. */
  ghost predicate ClaimedInPlace(scope: Scope, s: Sys, t: Sys, w: seq<Slot>) {
    && Reachable(scope, t) && View(t) == w
    && t.pool == s.pool && t.reqs == s.reqs && t.pending == s.pending && t.now == s.now && t.tick == s.tick
  }

  lemma RecycleClaimView(scope: Scope, u: Sys, i: nat, w: seq<Slot>)
    requires Reachable(scope, u) && scope.mode.Reusable? && WriteFree(u) && i < |u.pool| && w == View(u)
    ensures ClaimedInPlace(scope, u, Next(scope, u, RecycleClaim(u.pool[i])),
                           if !w[i].busy && w[i].Expired(scope.lifecycle, u.now) then Busied(w, i) else w)
  {
    NextIsReachable(scope, u, RecycleClaim(u.pool[i]));
    SlotIdsArePoolIds(scope, u);
    assert u.pool[i] in u.pool;
    forall j | 0 <= j < |u.pool| && j != i ensures u.pool[j] != u.pool[i] {
      assert w[j].id == u.pool[j];
    }
  }

  lemma ClaimOneMore(scope: Scope, s: Sys, u: Sys, i: nat, w: seq<Slot>, t: Sys)
    requires scope.mode.Reusable? && WriteFree(s) && i < |s.pool|
    requires w == Expiring(View(s), i, scope.lifecycle, s.now) && true == ClaimedInPlace(scope, s, u, w)
    requires t == RecycleClaimStep(u, scope, s.pool[i])
    ensures true == ClaimedInPlace(scope, s, t, Expiring(View(s), i + 1, scope.lifecycle, s.now))
  {
    var next := Expiring(View(s), i + 1, scope.lifecycle, s.now);
    ExpiringStep(View(s), i, scope.lifecycle, s.now);
    assert next == if !w[i].busy && w[i].Expired(scope.lifecycle, s.now) then Busied(w, i) else w;
    RecycleClaimView(scope, u, i, w);
    assert t == Next(scope, u, RecycleClaim(s.pool[i]));
  }

  lemma {:induction false} ClaimExpiredResult(scope: Scope, s: Sys, n: nat)
    requires Reachable(scope, s) && scope.mode.Reusable? && WriteFree(s) && n <= |s.pool|
    ensures ClaimedInPlace(scope, s, ClaimExpiredUpTo(scope, s, n), Expiring(View(s), n, scope.lifecycle, s.now))
  {
    var t := ClaimExpiredUpTo(scope, s, n);
    if n > 0 {
      var u, w := ClaimExpiredUpTo(scope, s, n - 1), Expiring(View(s), n - 1, scope.lifecycle, s.now);
      ClaimExpiredResult(scope, s, n - 1);
      ClaimOneMore(scope, s, u, n - 1, w, t);
    } else {
      assert t == s && View(s) == Expiring(View(s), 0, scope.lifecycle, s.now);
    }
  }

  lemma SwapResult(scope: Scope, s: Sys, id: nat, createdAt: nat) returns (at: nat, t: Sys)
    requires Reachable(scope, s) && WriteFree(s) && id in s.recycling && createdAt <= s.now
    ensures t == Next(scope, s, RecycleSwap(id, createdAt)) && Reachable(scope, t) && t.pending == s.pending
    ensures at < |s.pool| && s.pool[at] == id && View(s)[at].id == id && id != s.nextId
    ensures View(t) == View(s)[at := FreshSlot(s.nextId, false, createdAt)]
  {
    ReachableIsInv(scope, s);
    NextIsReachable(scope, s, RecycleSwap(id, createdAt));
    t := Next(scope, s, RecycleSwap(id, createdAt));
    at :| 0 <= at < |s.pool| && s.pool[at] == id;
    assert id in s.heap && id < s.nextId;
    SwapStepView(scope, s, id, createdAt, at);
  }

  lemma SwapStepView(scope: Scope, s: Sys, id: nat, createdAt: nat, at: nat)
    requires Reachable(scope, s) && at < |s.pool| && s.pool[at] == id
    ensures View(s)[at].id == id
    ensures View(SwapStep(s, id, createdAt)) == View(s)[at := FreshSlot(s.nextId, false, createdAt)]
  {
    ReachableIsInv(scope, s);
    SlotIdsArePoolIds(scope, s);
    var v := View(s);
    forall j | 0 <= j < |s.pool| && j != at ensures s.pool[j] != id && s.pool[j] != s.nextId {
      assert v[j].id == s.pool[j] && s.pool[j] in s.pool;
    }
  }

  /** The view after one context changed. */
  function SetSlot(v: seq<Slot>, c: Slot): (w: seq<Slot>)
    ensures |w| == |v| && forall i :: 0 <= i < |v| ==> w[i] == if v[i].id == c.id then c else v[i]
  {
    seq(|v|, i requires 0 <= i < |v| => if v[i].id == c.id then c else v[i])
  }

  lemma HeldResult(scope: Scope, s: Sys, step: Step, r: nat, id: nat) returns (t: Sys)
    requires Reachable(scope, s) && id in s.heap
    requires || (step == Step.CountRequest(r) && Holds(s, r, id) && !s.reqs[r].counted)
             || (step == Release(r) && Holds(s, r, id))
             || (step == Adopt(r) && r in s.reqs && s.reqs[r] == Looking(id))
    ensures t == Next(scope, s, step) && Reachable(scope, t) && t.pending == s.pending && id in t.heap
    ensures View(t) == SetSlot(View(s), t.heap[id])
    ensures t.heap[id] == match step
                          case CountRequest(_) => s.heap[id].(requests := s.heap[id].requests + 1, lastUsedAt := s.now)
                          case Release(_) => s.heap[id].(busy := false, lastUsedAt := s.now)
                          case _ => s.heap[id].(busy := true)
    ensures step.Adopt? ==> (Holds(t, r, id) <==> !s.heap[id].busy)
  {
    ReachableIsInv(scope, s);
    SlotIdsArePoolIds(scope, s);
    NextIsReachable(scope, s, step);
    t := Next(scope, s, step);
  }

  class Pool {
    const scope: Scope
    var contexts: seq<BrowserContext>
    var pendingCreations: nat

    /** The fields show the pool of state `s`, which some run reaches. */
    ghost predicate Shows(s: Sys)
      reads this, contexts
    {
      Reachable(scope, s) && Views(contexts) == View(s) && pendingCreations == s.pending
    }

    lemma ContextsAreDistinct(s: Sys)
      requires Shows(s)
      ensures AllDistinct(contexts)
    {
      SlotIdsArePoolIds(scope, s);
      forall i, j | 0 <= i < j < |contexts| ensures contexts[i] != contexts[j] {
        assert Views(contexts)[i].id != Views(contexts)[j].id;
      }
    }

    /** Reusable pre-creates `populated` idle contexts. */
    constructor (scope: Scope, populated: nat, now: nat)
      requires scope.Accepted() && populated <= scope.minContexts
      ensures this.scope == scope && Shows(Start(scope, populated, now))
      ensures forall c :: c in contexts ==> fresh(c)
    {
      this.scope, contexts, pendingCreations := scope, [], 0;
      new;
      ghost var start := Start(scope, populated, now);
      contexts := CreateIdle(if scope.mode.Reusable? then populated else 0, now);
      assert Views(contexts) == View(start);
      assert Run(scope, start, []) == start;
    }

    /** The optimistic lookup under the read lock. */
    method TryReuse(ghost s: Sys, ghost r: nat, origin: Option<Origin>, now: nat) returns (claimed: Option<BrowserContext>)
      requires Shows(s) && scope.mode.Reusable? && r !in s.reqs && s.tick.None? && now == s.now
      modifies contexts
      ensures Shows(Next(scope, s, Reuse(r, origin)))
      ensures claimed.Some? ==> claimed.value in contexts && Holds(Next(scope, s, Reuse(r, origin)), r, claimed.value.id)
      ensures claimed.None? ==> Next(scope, s, Reuse(r, origin)) == s
    {
      ContextsAreDistinct(s);
      ghost var v := Views(contexts);
      var won := ClaimLeastUsedIdle(contexts, origin, scope.lifecycle, now);
      ghost var t := ReuseResult(scope, s, r, origin, v, won);
      claimed := None;
      if won.Some? {
        claimed := Some(contexts[won.value]);
        assert Views(contexts)[won.value].id == v[won.value].id;
      }
    }

    /** Vector and counter after a decision whose claim, if any, is already on the context. */
    method Apply(g: Grant) returns (named: Option<BrowserContext>)
      requires NamedIndex(g).Some? ==> NamedIndex(g).value < |contexts|
      modifies this
      ensures named == if NamedIndex(g).Some? then Some(old(contexts)[NamedIndex(g).value]) else None
      ensures pendingCreations == old(pendingCreations) + (if g.Reserved? || g.Replaced? then 1 else 0)
      ensures Views(contexts) == if g.Replaced? then Without(old(Views(contexts)), g.index) else old(Views(contexts))
    {
      named := None;
      match g
      case Claimed(i) => named := Some(contexts[i]);
      case Reserved => pendingCreations := pendingCreations + 1;
      case Replaced(i) =>
        named := Some(contexts[i]);
        contexts := RemoveAt(contexts, i);
        pendingCreations := pendingCreations + 1;
      case Refused =>
    }

    /** The section of get_or_create_context under the write lock. The used-up context it replaces
        is handed back, out of the pool and busy, to be released outside the lock. */
    method GetOrCreateLocked(ghost s: Sys, ghost r: nat, dedicatedProxy: bool, origin: Option<Origin>, now: nat)
      returns (g: Grant, named: Option<BrowserContext>)
      requires Shows(s) && scope.mode.Reusable? && r !in s.reqs && WriteFree(s) && now == s.now
      modifies this, contexts
      ensures Shows(Next(scope, s, Acquire(r, dedicatedProxy, origin)))
      ensures g == Decide(View(s), s.pending, scope.maxContexts, dedicatedProxy, origin, scope.lifecycle, now)
      ensures named.Some? <==> g.Claimed? || g.Replaced?
      ensures named.Some? ==> g.index < |old(contexts)| && named.value == old(contexts)[g.index]
    {
      ContextsAreDistinct(s);
      ghost var v := Views(contexts);
      g := DecideLocked(contexts, pendingCreations, scope.maxContexts, dedicatedProxy, origin, scope.lifecycle, now);
      ghost var t := AcquireResult(scope, s, r, dedicatedProxy, origin, v, g);
      assert g.Replaced? ==> Without(Busied(v, g.index), g.index) == Without(v, g.index);
      named := Apply(g);
      assert Views(contexts) == View(t);
    }

    /** Takes the idle contexts out of an AlwaysNew pool, and hands them back to be released. */
    method ReclaimLeaked() returns (leaked: seq<BrowserContext>)
      modifies this`contexts
      ensures Views(contexts) == BusyOnly(old(Views(contexts)))
      ensures forall c :: c in contexts <==> c in old(contexts) && c.isBusy
      ensures forall c :: c in leaked <==> c in old(contexts) && !c.isBusy
    {
      var kept;
      kept, leaked := RetainBusy(contexts);
      contexts := kept;
    }

    method CreateAlwaysNewLocked(ghost s: Sys, ghost r: nat, ghost dedicatedProxy: bool, ghost origin: Option<Origin>)
      returns (reserved: bool, leaked: seq<BrowserContext>)
      requires Shows(s) && scope.mode.AlwaysNew? && r !in s.reqs && WriteFree(s)
      modifies this
      ensures Shows(Next(scope, s, Acquire(r, dedicatedProxy, origin)))
      ensures reserved <==> r in Next(scope, s, Acquire(r, dedicatedProxy, origin)).reqs
      ensures forall c :: c in leaked <==> c in old(contexts) && !c.isBusy
    {
      leaked := ReclaimLeaked();
      ghost var t := ReserveResult(scope, s, r, dedicatedProxy, origin, Views(contexts));
      reserved := |contexts| + pendingCreations < scope.maxContexts;
      if reserved { pendingCreations := pendingCreations + 1; }
    }

    method CreateDedicatedLocked(ghost s: Sys, ghost r: nat, ghost dedicatedProxy: bool, ghost origin: Option<Origin>)
      returns (reserved: bool)
      requires Shows(s) && scope.mode.Dedicated? && r !in s.reqs && WriteFree(s)
      modifies this`pendingCreations
      ensures Shows(Next(scope, s, Acquire(r, dedicatedProxy, origin)))
      ensures reserved <==> r in Next(scope, s, Acquire(r, dedicatedProxy, origin)).reqs
    {
      ghost var t := ReserveResult(scope, s, r, dedicatedProxy, origin, Views(contexts));
      reserved := |contexts| + pendingCreations < scope.maxContexts;
      if reserved { pendingCreations := pendingCreations + 1; }
    }

    /** A build that succeeded: busy before it is visible, pushed, and its reservation dropped. */
    method AddBuilt(ghost s: Sys, ghost r: nat, context: BrowserContext)
      requires Shows(s) && r in s.reqs && s.reqs[r].Building? && WriteFree(s)
      requires context.View() == FreshSlot(s.nextId, false, context.createdAt) && context.createdAt <= s.now
      modifies this, context
      ensures Shows(Next(scope, s, Built(r, context.createdAt)))
      ensures context.isBusy && contexts == old(contexts) + [context]
    {
      ghost var t := BuiltResult(scope, s, r, context.createdAt);
      ghost var v := Views(contexts);
      forall i | 0 <= i < |contexts| ensures contexts[i] != context {
        assert v[i].id != s.nextId;
      }
      context.isBusy := true;
      assert Views(contexts) == v;
      contexts := contexts + [context];
      assert Views(contexts) == v + [context.View()];
      pendingCreations := pendingCreations - 1;
    }

    /** A build that failed, stalled or was dropped: the reservation's own drop. */
    method DropReservation(ghost s: Sys, ghost r: nat)
      requires Shows(s) && r in s.reqs && s.reqs[r].Building?
      modifies this`pendingCreations
      ensures Shows(Next(scope, s, BuildLost(r)))
    {
      ReachableIsInv(scope, s);
      BuildersEnd(s.reqs, r);
      NextIsReachable(scope, s, BuildLost(r));
      ghost var t := Next(scope, s, BuildLost(r));
      assert View(t) == View(s);
      pendingCreations := pendingCreations - 1;
    }

    /** Removal by id: of the owner while it holds the context, or of the task it left behind. */
    method DestroyContext(ghost s: Sys, ghost step: Step, id: nat) returns (removed: seq<BrowserContext>)
      requires Shows(s) && WriteFree(s)
      requires RemovesById(s, step, id)
      modifies this`contexts
      ensures Shows(Next(scope, s, step))
      ensures forall k :: 0 <= k < |contexts| ==> contexts[k].id != id
      ensures Views(removed) == KeepSlots(old(Views(contexts)), {id})
    {
      ghost var t := RemovalResult(scope, s, step, id);
      contexts, removed := Retain(contexts, {id});
    }

    /** Ends the session of a used-up context that is still in the pool and idle. */
    method EndSessionIfUsedUp(ghost s: Sys, ghost r: nat, context: BrowserContext, now: nat) returns (ended: bool)
      requires Shows(s) && WriteFree(s) && now == s.now
      requires r in s.reqs && s.reqs[r] == Looking(context.id)
      requires context.id in s.heap && context.View() == s.heap[context.id]
      requires forall c :: c in contexts && c.id == context.id ==> c == context
      modifies this, context
      ensures Shows(Next(scope, s, EndIfUsedUp(r)))
      ensures ended <==> r !in Next(scope, s, EndIfUsedUp(r)).reqs
    {
      InPoolById(s, context);
      ghost var t := EndResult(scope, s, r, context.id);
      ended := context.View().UsedUp(scope.lifecycle, now) && context in contexts && !context.isBusy;
      if ended { ClaimAndRemove(context); }
      assert Shows(t);
    }

    method ClaimAndRemove(context: BrowserContext)
      requires forall c :: c in contexts && c.id == context.id ==> c == context
      modifies this`contexts, context
      ensures Views(contexts) == DropSlots(old(Views(contexts)), {context.id}) && context.isBusy
    {
      ghost var v := Views(contexts);
      context.isBusy := true;
      BusyDoesNotMatter(v, Views(contexts), context.id);
      var gone;
      contexts, gone := Retain(contexts, {context.id});
    }

    lemma InPoolById(s: Sys, context: BrowserContext)
      requires Shows(s) && forall c :: c in contexts && c.id == context.id ==> c == context
      ensures context in contexts <==> context.id in s.pool
    {
      SlotIdsArePoolIds(scope, s);
      forall i | 0 <= i < |contexts| ensures contexts[i].id == s.pool[i] && contexts[i] in contexts && s.pool[i] in s.pool {
        assert Views(contexts)[i].id == contexts[i].id;
      }
    }

    /** AlwaysNew monitor tick. */
    method ReclaimTick(ghost s: Sys) returns (leaked: seq<BrowserContext>)
      requires Shows(s) && scope.mode.AlwaysNew? && WriteFree(s)
      modifies this`contexts
      ensures Shows(Next(scope, s, Reclaim))
      ensures forall c :: c in leaked <==> c in old(contexts) && !c.isBusy
    {
      ghost var t := ReclaimResult(scope, s);
      leaked := ReclaimLeaked();
    }

    /** Dedicated monitor tick: the idle expired contexts leave together. */
    method SweepExpired(ghost s: Sys, now: nat) returns (expired: seq<BrowserContext>, ids: seq<nat>)
      requires Shows(s) && scope.mode.Dedicated? && WriteFree(s) && now == s.now
      modifies this`contexts
      ensures Shows(SweepAll(scope, s, ids))
      ensures forall k :: 0 <= k < |View(s)| ==>
                (View(s)[k].id in ids <==> !View(s)[k].busy && View(s)[k].Expired(scope.lifecycle, now))
      ensures Views(expired) == KeepSlots(View(s), Elements(ids))
    {
      ids := ExpiredIds(s, now);
      SweepResult(scope, s, ids);
      contexts, expired := Retain(contexts, Elements(ids));
    }

    method ExpiredIds(ghost s: Sys, now: nat) returns (ids: seq<nat>)
      requires Shows(s) && now == s.now
      ensures forall k :: 0 <= k < |View(s)| ==>
                (View(s)[k].id in ids <==> !View(s)[k].busy && View(s)[k].Expired(scope.lifecycle, now))
      ensures forall id :: id in ids ==> FindsExpired(scope, s, id)
    {
      SlotIdsArePoolIds(scope, s);
      ghost var v := View(s);
      ids := [];
      for i := 0 to |contexts|
        invariant forall k :: 0 <= k < i ==> (v[k].id in ids <==> !v[k].busy && v[k].Expired(scope.lifecycle, now))
        invariant forall id :: id in ids ==> exists k :: 0 <= k < i && v[k].id == id
      {
        assert Views(contexts)[i] == v[i];
        if !contexts[i].isBusy && contexts[i].View().Expired(scope.lifecycle, now) {
          ids := ids + [contexts[i].id];
        }
      }
      forall id | id in ids ensures FindsExpired(scope, s, id) {
        var k :| 0 <= k < |contexts| && v[k].id == id;
        assert s.pool[k] == id && s.heap[id] == v[k];
        assert id in s.pool;
      }
    }

    /** First phase of a recycling tick: every idle expired context is claimed and stays in place. */
    method ClaimExpired(ghost s: Sys, now: nat) returns (claimed: seq<nat>)
      requires Shows(s) && scope.mode.Reusable? && WriteFree(s) && now == s.now
      modifies contexts
      ensures Shows(ClaimExpiredUpTo(scope, s, |contexts|))
      ensures forall k :: k in claimed <==>
                0 <= k < |contexts| && !View(s)[k].busy && View(s)[k].Expired(scope.lifecycle, now)
    {
      ContextsAreDistinct(s);
      ClaimExpiredResult(scope, s, |contexts|);
      claimed := ClaimEachExpired(contexts, scope.lifecycle, now);
    }

    /** Third phase: the idle replacement takes the place of the claimed context, found by identity. */
    method SwapRecycled(ghost s: Sys, claimed: BrowserContext, replacement: BrowserContext) returns (swapped: bool)
      requires Shows(s) && WriteFree(s) && claimed.id in s.recycling && replacement.createdAt <= s.now
      requires forall c :: c in contexts && c.id == claimed.id ==> c == claimed
      requires replacement.View() == FreshSlot(s.nextId, false, replacement.createdAt)
      modifies this`contexts
      ensures Shows(Next(scope, s, RecycleSwap(claimed.id, replacement.createdAt)))
      ensures swapped && claimed !in contexts && replacement in contexts && |contexts| == |old(contexts)|
    {
      InPoolById(s, claimed);
      ContextsAreDistinct(s);
      ghost var v := Views(contexts);
      ghost var at, t := SwapResult(scope, s, claimed.id, replacement.createdAt);
      assert v[at].id == claimed.id && contexts[at] in contexts;
      swapped := false;
      var current := contexts;
      for i := 0 to |current|
        invariant swapped <==> at < i
        invariant contexts == if swapped then current[at := replacement] else current
      {
        if current[i] == claimed {
          contexts := current[i := replacement];
          swapped := true;
        }
      }
      assert Views(contexts) == v[at := replacement.View()];
      assert contexts[at] == replacement;
    }

    method GetStats(ghost s: Sys) returns (stats: Stats)
      requires Shows(s)
      ensures stats == StatsOf(View(s), s.pending, scope.maxContexts, scope.mode)
      ensures stats.availableSlots + stats.claimedContexts == scope.maxContexts
      ensures stats.activeRequests <= stats.claimedContexts
    {
      ghost var v := Views(contexts);
      var active, requests: nat := 0, 0;
      for i := 0 to |contexts|
        invariant active + CountBusy(v[i..]) == CountBusy(v)
        invariant requests + SumRequests(v[i..]) == SumRequests(v)
      {
        assert v[i..][0] == contexts[i].View() && v[i..][1..] == v[i + 1..];
        if contexts[i].isBusy { active := active + 1; }
        requests := requests + contexts[i].totalRequests;
      }
      active := active + pendingCreations;
      var claimed := active;
      if scope.mode.Dedicated? && |contexts| + pendingCreations > active {
        claimed := |contexts| + pendingCreations;
      }
      ReachableIsInv(scope, s);
      stats := Stats(|contexts|, scope.maxContexts, scope.maxContexts - claimed, active, claimed, requests);
    }

    /** A request's own context, found again by identity. */
    ghost predicate IsTheContext(s: Sys, context: BrowserContext)
      reads contexts, this, context
    {
      && context.id in s.heap && context.View() == s.heap[context.id]
      && (forall c :: c in contexts && c.id == context.id ==> c == context)
    }

    method CountRequest(ghost s: Sys, ghost r: nat, context: BrowserContext, now: nat)
      requires Shows(s) && Holds(s, r, context.id) && !s.reqs[r].counted && IsTheContext(s, context) && now == s.now
      modifies context
      ensures Shows(Next(scope, s, Step.CountRequest(r)))
      ensures context.totalRequests == old(context.totalRequests) + 1
    {
      ghost var v := Views(contexts);
      ghost var t := HeldResult(scope, s, Step.CountRequest(r), r, context.id);
      context.lastUsedAt := now;
      context.totalRequests := context.totalRequests + 1;
      assert Views(contexts) == SetSlot(v, context.View());
    }

    /** The busy guard's drop at the end of a request, whatever ended it. */
    method EndRequest(ghost s: Sys, ghost r: nat, context: BrowserContext, now: nat)
      requires Shows(s) && Holds(s, r, context.id) && IsTheContext(s, context) && now == s.now
      modifies context
      ensures Shows(Next(scope, s, Release(r)))
      ensures !context.isBusy && context.lastUsedAt == now
    {
      ghost var v := Views(contexts);
      ghost var t := HeldResult(scope, s, Release(r), r, context.id);
      context.Release(now);
      assert Views(contexts) == SetSlot(v, context.View());
    }

    /** A session continuation claims the context it looked up, in the pool or not. */
    method AdoptContinuation(ghost s: Sys, ghost r: nat, context: BrowserContext) returns (won: bool)
      requires Shows(s) && r in s.reqs && s.reqs[r] == Looking(context.id) && IsTheContext(s, context)
      modifies context
      ensures Shows(Next(scope, s, Adopt(r)))
      ensures won <==> Holds(Next(scope, s, Adopt(r)), r, context.id)
    {
      ghost var v := Views(contexts);
      ghost var t := HeldResult(scope, s, Adopt(r), r, context.id);
      won := context.TryClaim();
      assert Views(contexts) == SetSlot(v, context.View());
    }
  }
}
