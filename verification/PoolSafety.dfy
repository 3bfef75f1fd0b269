/** What the invariant of the pool means for its users: capacity, exclusive ownership, no leaked slot,
    and statistics that tell the truth about admission. */
module PoolSafety {
  import opened Wrappers
  import opened Lifecycle
  import opened PoolSpec
  import opened PoolProtocol
  import opened PoolInvariant

  // ----- what the invariant means -----

  /** From an accepted scope, in every run: the pool stays within `max_contexts` with its
      reservations counted exactly, every busy context in it has one owner, no idle one has any,
      and no two requests hold the same context. */
  lemma PoolIsSafeInEveryRun(scope: Scope, populated: nat, now: nat, steps: seq<Step>)
    requires scope.Accepted() && populated <= scope.minContexts
    ensures var s := Run(scope, Start(scope, populated, now), steps);
            && |s.pool| + s.pending <= scope.maxContexts
            && s.pending == |Builders(s.reqs)|
            && (forall id :: id in s.pool ==> (At(s, id).busy <==> Owned(s, id)))
            && (forall r, q, id :: Holds(s, r, id) && Holds(s, q, id) ==> r == q)
            && (forall r, id :: Holds(s, r, id) ==> id !in s.recycling)
  {
    StartIsInv(scope, populated, now);
    RunKeepsInv(scope, Start(scope, populated, now), steps);
    var s := Run(scope, Start(scope, populated, now), steps);
    forall id | id in s.pool && Owned(s, id) ensures At(s, id).busy {
      if id !in s.recycling {
        var r :| Holds(s, r, id);
      }
    }
  }

  /** Outside Dedicated, a held context leaves the pool only by its owner's own step. */
  lemma OnlyTheOwnerRemoves(scope: Scope, s: Sys, step: Step, id: nat)
    requires Inv(scope, s) && !scope.mode.Dedicated?
    requires id in s.pool && Owned(s, id) && id !in Next(scope, s, step).pool
    ensures || (step.Destroy? && Holds(s, step.r, id))
            || (step.RecycleSwap? && step.id == id && id in s.recycling)
  {
    if id !in s.recycling {
      var r :| Holds(s, r, id);
    }
    assert s.heap[id].busy;
    if step.Acquire? {
      AcquireRemovesIdleOnly(scope, s, step.r, step.dedicatedProxy, step.origin, id);
    } else if step.RecycleSwap? || step.Built? {
      SwapRemovesOne(s, step, id);
    } else {
      BusyStays(scope, s, step, id);
    }
  }

  lemma AcquireRemovesIdleOnly(scope: Scope, s: Sys, r: nat, dedicatedProxy: bool, origin: Option<Origin>, id: nat)
    requires Shape(s) && id in s.pool && s.heap[id].busy
    ensures id in AcquireStep(s, scope, r, dedicatedProxy, origin).pool
  {
    DecideIsSound(View(s), s.pending, scope.maxContexts, dedicatedProxy, origin, scope.lifecycle, s.now);
  }

  lemma SwapRemovesOne(s: Sys, step: Step, id: nat)
    requires step.RecycleSwap? || step.Built?
    requires id in s.pool
    ensures step.RecycleSwap? && step.id != id ==> id in SwapStep(s, step.id, step.createdAt).pool
    ensures step.Built? ==> id in BuiltStep(s, step.r, step.createdAt).pool
  {
    if step.RecycleSwap? && step.id != id {
      var i :| 0 <= i < |s.pool| && s.pool[i] == id;
      assert SwapStep(s, step.id, step.createdAt).pool[i] == id;
    }
  }

  lemma BusyStays(scope: Scope, s: Sys, step: Step, id: nat)
    requires Inv(scope, s) && !scope.mode.Dedicated? && id in s.pool && s.heap[id].busy
    requires !step.Acquire? && !step.RecycleSwap? && !step.Built?
    ensures id in Next(scope, s, step).pool || (step.Destroy? && Holds(s, step.r, id))
  {
  }

  /** The monitor always finds the slot it claimed, so no replacement is built in vain. */
  lemma RecyclerFindsItsSlot(scope: Scope, s: Sys, id: nat, createdAt: nat)
    requires Inv(scope, s) && WriteFree(s) && id in s.recycling && createdAt <= s.now
    ensures var t := Next(scope, s, RecycleSwap(id, createdAt));
            && |t.pool| == |s.pool| && id !in t.pool
            && s.nextId in t.pool && !t.heap[s.nextId].busy
  {
    var i :| 0 <= i < |s.pool| && s.pool[i] == id;
    var t := Next(scope, s, RecycleSwap(id, createdAt));
    assert t.pool[i] == s.nextId;
  }

  /** No slot leaks: with no live request and no recycle in progress the pool is idle, nothing is
      reserved, and outside Dedicated every slot is available again. */
  lemma QuietPoolIsIdle(scope: Scope, s: Sys)
    requires Inv(scope, s) && s.reqs == map[] && s.recycling == {}
    ensures s.pending == 0
    ensures forall id :: id in s.pool ==> !s.heap[id].busy
    ensures !scope.mode.Dedicated? ==>
              StatsOf(View(s), s.pending, scope.maxContexts, scope.mode).availableSlots == scope.maxContexts
  {
    assert Builders(s.reqs) == {};
    forall id | id in s.pool ensures !s.heap[id].busy {
      assert !Owned(s, id);
    }
    NoneBusy(View(s));
  }

  lemma {:induction false} NoneBusy(slots: seq<Slot>)
    requires forall i :: 0 <= i < |slots| ==> !slots[i].busy
    ensures CountBusy(slots) == 0
  {
    if slots != [] { NoneBusy(slots[1..]); }
  }

  /** Idle time is counted from the end of a request, however long it ran: the context it leaves
      behind is never idle-expired at that moment. */
  lemma ReleasedContextIsNotIdle(scope: Scope, s: Sys, r: nat)
    requires Inv(scope, s) && r in s.reqs && s.reqs[r].Holding?
    ensures var id := s.reqs[r].id;
            var t := Next(scope, s, Release(r));
            && id in t.heap && !t.heap[id].busy && r !in t.reqs
            && (t.heap[id].cacheMb <= scope.lifecycle.maxCacheMb ==>
                  (t.heap[id].Expired(scope.lifecycle, t.now) <==> t.heap[id].UsedUp(scope.lifecycle, t.now)))
  {
    assert Holds(s, r, s.reqs[r].id);
  }

  // ----- stats tell the truth about admission -----

  lemma ViewCons(s: Sys, id: nat, rest: seq<nat>)
    ensures ViewOf(s, [id] + rest) == [At(s, id)] + ViewOf(s, rest)
  {
  }

  lemma {:induction false} ReclaimedView(s: Sys, pool: seq<nat>, gone: set<nat>)
    requires forall id :: id in pool ==> (id in gone <==> !At(s, id).busy)
    ensures ViewOf(s, WithoutIds(pool, gone)) == BusyOnly(ViewOf(s, pool))
  {
    if pool != [] {
      var head, tail := pool[0], pool[1..];
      assert pool == [head] + tail;
      ReclaimedView(s, tail, gone);
      ViewCons(s, head, tail);
      ViewCons(s, head, WithoutIds(tail, gone));
      assert head in pool;
    }
  }

  predicate Granted(scope: Scope, s: Sys, r: nat, dedicatedProxy: bool, origin: Option<Origin>) {
    r in AcquireStep(s, scope, r, dedicatedProxy, origin).reqs
  }

  lemma ReusableGrant(scope: Scope, s: Sys, r: nat, dedicatedProxy: bool, origin: Option<Origin>)
    requires Inv(scope, s) && r !in s.reqs && scope.mode.Reusable?
    ensures Granted(scope, s, r, dedicatedProxy, origin) <==>
              !Decide(View(s), s.pending, scope.maxContexts, dedicatedProxy, origin, scope.lifecycle, s.now).Refused?
  {
    DecideIsSound(View(s), s.pending, scope.maxContexts, dedicatedProxy, origin, scope.lifecycle, s.now);
  }

  lemma AlwaysNewGrant(scope: Scope, s: Sys, r: nat, dedicatedProxy: bool, origin: Option<Origin>)
    requires Inv(scope, s) && r !in s.reqs && scope.mode.AlwaysNew?
    ensures Granted(scope, s, r, dedicatedProxy, origin) <==> CountBusy(View(s)) + s.pending < scope.maxContexts
  {
    ReclaimedView(s, s.pool, IdleIds(s));
    ReclaimKeepsTheBusy(View(s));
    assert |ReclaimIdle(s).pool| == CountBusy(View(s));
  }

  /** `available_slots > 0` exactly when the next acquisition is granted, in all three modes, for
      requests without routing overrides and whatever origin is quarantined; the number of claimed
      slots covers the active requests and the subtraction never saturates. */
  lemma StatsAreAdmission(scope: Scope, s: Sys, r: nat, origin: Option<Origin>)
    requires Inv(scope, s) && r !in s.reqs
    ensures var stats := StatsOf(View(s), s.pending, scope.maxContexts, scope.mode);
            && (stats.availableSlots > 0 <==> Granted(scope, s, r, false, origin))
            && stats.activeRequests <= stats.claimedContexts <= scope.maxContexts
            && stats.availableSlots + stats.claimedContexts == scope.maxContexts
  {
    match scope.mode
    case AlwaysNew => AlwaysNewGrant(scope, s, r, false, origin);
    case Dedicated =>
    case Reusable =>
      ReusableGrant(scope, s, r, false, origin);
      FullWhenRefused(View(s), s.pending, scope, origin, s.now);
  }

  lemma FullWhenRefused(v: seq<Slot>, pending: nat, scope: Scope, origin: Option<Origin>, now: nat)
    requires |v| + pending <= scope.maxContexts
    ensures Decide(v, pending, scope.maxContexts, false, origin, scope.lifecycle, now).Refused? <==>
              CountBusy(v) + pending == scope.maxContexts
  {
    CountBusyIsFull(v);
    DecideIsSound(v, pending, scope.maxContexts, false, origin, scope.lifecycle, now);
    if CountBusy(v) != |v| {
      var i :| 0 <= i < |v| && !v[i].busy;
    }
  }

  /** In Reusable a request with a routing override needs more: a free slot or an idle context
      that is used up. An idle context that is not is counted as available and refused to it. */
  lemma CountryRequestsNeedASlot(scope: Scope, s: Sys, r: nat, origin: Option<Origin>)
    requires Inv(scope, s) && r !in s.reqs && scope.mode.Reusable?
    ensures Granted(scope, s, r, true, origin) <==>
              || |s.pool| + s.pending < scope.maxContexts
              || (exists id :: id in s.pool && !s.heap[id].busy && s.heap[id].UsedUp(scope.lifecycle, s.now))
  {
    var v := View(s);
    DecideIsSound(v, s.pending, scope.maxContexts, true, origin, scope.lifecycle, s.now);
    var g := Decide(v, s.pending, scope.maxContexts, true, origin, scope.lifecycle, s.now);
    ReusableGrant(scope, s, r, true, origin);
    if g.Replaced? {
      assert s.pool[g.index] in s.pool;
    }
    forall id | id in s.pool && !s.heap[id].busy && s.heap[id].UsedUp(scope.lifecycle, s.now) ensures !g.Refused? {
      var i :| 0 <= i < |s.pool| && s.pool[i] == id;
      assert v[i] == s.heap[id];
    }
  }
}
