/** The context pool under concurrency: requests, the lifecycle monitor and the tasks they leave
    behind, interleaved at the granularity of the pool lock and of single compare-and-swaps.

    A `Step` is one critical section, one compare-and-swap or one drop. A request's future can be
    dropped at any await, so every phase has a step that ends it. Steps that need the write lock
    are disabled while a reader scans, and steps that need it for reading or writing while the
    monitor's tick holds it; a disabled step changes nothing, so a run is any list of steps. */
module PoolProtocol {
  import opened Wrappers
  import opened Lifecycle
  import opened PoolSpec

  datatype Phase =
    | Scanning(candidates: seq<nat>)      // under the read lock: sorted candidates still to try
    | Building                            // owns one reservation
    | Looking(id: nat)                    // a session continuation that found its context
    | Holding(id: nat, counted: bool)     // owns a busy context

  /** A context as the monitor's tick read it. */
  datatype Sighting = Sighting(slot: Slot, at: nat)

  datatype Sys = Sys(
    heap: map<nat, Slot>,        // every context ever shared, in the pool or not
    pool: seq<nat>,              // the vector
    pending: nat,                // the counter of reserved slots
    reqs: map<nat, Phase>,       // live requests
    recycling: set<nat>,         // contexts the monitor has claimed and not yet swapped
    cleanups: set<nat>,          // AlwaysNew removals still queued after their request ended
    tick: Option<map<nat, Sighting>>, // the tick that holds the write lock: what it found expired
    nextId: nat,                 // next context id
    now: nat)

  datatype Step =
    | Elapse(d: nat)
    | Scan(r: nat, origin: Option<Origin>)      // read lock taken, candidates listed
    | Cas(r: nat)                               // one try_claim of the scan; the last one ends it
    | Reuse(r: nat, origin: Option<Origin>)     // a scan nothing interleaves with
    | Acquire(r: nat, dedicatedProxy: bool, origin: Option<Origin>)
    | Built(r: nat, createdAt: nat)
    | BuildLost(r: nat)                         // error, timeout or dropped future
    | Lookup(r: nat, id: nat)
    | EndIfUsedUp(r: nat)
    | Adopt(r: nat)                             // ContextBusyGuard::new of a continuation
    | Abandon(r: nat)
    | CountRequest(r: nat)
    | Block(r: nat, blocked: map<Origin, nat>)
    | Destroy(r: nat)                           // the owner removes its context
    | Release(r: nat)                           // the busy guard drops
    | Cleanup(id: nat)
    | Reclaim                                   // AlwaysNew monitor tick
    | TickBegin                                 // Reusable and Dedicated monitor: write lock taken
    | TickCheck(id: nat)                        // one context looked at
    | TickTake(id: nat)                         // Reusable: try_claim of one found expired
    | TickEnd                                   // Dedicated: those found expired leave; lock released
    | RecycleClaim(id: nat)                     // check and claim of a tick nothing interleaves with
    | RecycleSwap(id: nat, createdAt: nat)

  // ----- views -----

  function At(s: Sys, id: nat): Slot {
    if id in s.heap then s.heap[id] else FreshSlot(id, true, 0)
  }

  function ViewOf(s: Sys, pool: seq<nat>): (v: seq<Slot>)
    ensures |v| == |pool|
    ensures forall i :: 0 <= i < |v| ==> v[i] == At(s, pool[i])
  {
    seq(|pool|, i requires 0 <= i < |pool| => At(s, pool[i]))
  }

  function View(s: Sys): (v: seq<Slot>)
    ensures |v| == |s.pool|
    ensures forall i :: 0 <= i < |v| ==> v[i] == At(s, s.pool[i])
  {
    ViewOf(s, s.pool)
  }

  predicate WriteFree(s: Sys) {
    s.tick.None? && forall r :: r in s.reqs ==> !s.reqs[r].Scanning?
  }

  function Builders(reqs: map<nat, Phase>): set<nat> {
    set r | r in reqs && reqs[r].Building?
  }

  predicate Holds(s: Sys, r: nat, id: nat) {
    r in s.reqs && s.reqs[r].Holding? && s.reqs[r].id == id
  }

  ghost predicate Owned(s: Sys, id: nat) {
    id in s.recycling || exists r :: Holds(s, r, id)
  }

  function WithoutIds(pool: seq<nat>, gone: set<nat>): (r: seq<nat>)
    ensures forall x :: x in r <==> x in pool && x !in gone
    ensures |r| <= |pool|
  {
    if pool == [] then []
    else
      assert pool == [pool[0]] + pool[1..];
      (if pool[0] in gone then [] else [pool[0]]) + WithoutIds(pool[1..], gone)
  }

  function IdleIds(s: Sys): set<nat> { set id | id in s.pool && !At(s, id).busy }

  function SetBusy(heap: map<nat, Slot>, id: nat): map<nat, Slot>
    requires id in heap
  {
    heap[id := heap[id].(busy := true)]
  }

  // ----- steps -----

  function CandidateIds(s: Sys, scope: Scope, origin: Option<Origin>): (ids: seq<nat>)
    ensures forall x :: x in ids ==> x in s.pool
  {
    var order := Order(LeastUsedRanks(View(s), origin, scope.lifecycle, s.now));
    assert forall k :: 0 <= k < |order| ==> order[k] in order;
    seq(|order|, k requires 0 <= k < |order| => assert order[k] in order; s.pool[order[k]])
  }

  function Claim(s: Sys, r: nat, id: nat): Sys
    requires id in s.heap
  {
    s.(heap := SetBusy(s.heap, id), reqs := s.reqs[r := Holding(id, false)])
  }

  function Reserve(s: Sys, r: nat): Sys {
    s.(pending := s.pending + 1, reqs := s.reqs[r := Building])
  }

  function TryCas(s: Sys, r: nat): Sys
    requires r in s.reqs && s.reqs[r].Scanning?
  {
    var c := s.reqs[r].candidates;
    if c == [] then s.(reqs := s.reqs - {r})
    else if c[0] in s.heap && !s.heap[c[0]].busy then Claim(s, r, c[0])
    else s.(reqs := s.reqs[r := Scanning(c[1..])])
  }

  function ReuseAtomically(s: Sys, scope: Scope, r: nat, origin: Option<Origin>): Sys {
    var best := Best(LeastUsedRanks(View(s), origin, scope.lifecycle, s.now));
    BestIsBest(LeastUsedRanks(View(s), origin, scope.lifecycle, s.now));
    if best.Some? && s.pool[best.value] in s.heap then Claim(s, r, s.pool[best.value]) else s
  }

  function AcquireReusable(s: Sys, scope: Scope, r: nat, dedicatedProxy: bool, origin: Option<Origin>): Sys {
    var g := Decide(View(s), s.pending, scope.maxContexts, dedicatedProxy, origin, scope.lifecycle, s.now);
    DecideIsSound(View(s), s.pending, scope.maxContexts, dedicatedProxy, origin, scope.lifecycle, s.now);
    match g
    case Claimed(i) => if s.pool[i] in s.heap then Claim(s, r, s.pool[i]) else s
    case Reserved => Reserve(s, r)
    case Replaced(i) =>
      if s.pool[i] in s.heap
      then Reserve(s.(heap := SetBusy(s.heap, s.pool[i]), pool := WithoutIds(s.pool, {s.pool[i]})), r)
      else s
    case Refused => s
  }

  function ReserveIfRoom(s: Sys, scope: Scope, r: nat): Sys {
    if |s.pool| + s.pending < scope.maxContexts then Reserve(s, r) else s
  }

  function ReclaimIdle(s: Sys): Sys {
    s.(pool := WithoutIds(s.pool, IdleIds(s)))
  }

  function AcquireStep(s: Sys, scope: Scope, r: nat, dedicatedProxy: bool, origin: Option<Origin>): Sys {
    match scope.mode
    case AlwaysNew => ReserveIfRoom(ReclaimIdle(s), scope, r)
    case Reusable => AcquireReusable(s, scope, r, dedicatedProxy, origin)
    case Dedicated => ReserveIfRoom(s, scope, r)
  }

  /** The new context is busy before it is visible; the reservation goes in the same section. */
  function BuiltStep(s: Sys, r: nat, createdAt: nat): Sys {
    s.(heap := s.heap[s.nextId := FreshSlot(s.nextId, true, createdAt)],
       pool := s.pool + [s.nextId],
       pending := if s.pending > 0 then s.pending - 1 else 0,
       reqs := s.reqs[r := Holding(s.nextId, false)],
       nextId := s.nextId + 1)
  }

  function EndStep(s: Sys, scope: Scope, r: nat, id: nat): Sys {
    if id in s.heap && s.heap[id].UsedUp(scope.lifecycle, s.now) && id in s.pool && !s.heap[id].busy
    then s.(heap := SetBusy(s.heap, id), pool := WithoutIds(s.pool, {id}), reqs := s.reqs - {r})
    else s
  }

  function ReleaseStep(s: Sys, scope: Scope, r: nat, id: nat): Sys
    requires id in s.heap
  {
    s.(heap := s.heap[id := s.heap[id].(busy := false, lastUsedAt := s.now)],
       reqs := s.reqs - {r},
       cleanups := if scope.mode.AlwaysNew? then s.cleanups + {id} else s.cleanups)
  }

  function Replace(pool: seq<nat>, id: nat, other: nat): (r: seq<nat>)
    ensures |r| == |pool|
    ensures forall i :: 0 <= i < |r| ==> r[i] == if pool[i] == id then other else pool[i]
  {
    seq(|pool|, i requires 0 <= i < |pool| => if pool[i] == id then other else pool[i])
  }

  /** An idle replacement takes the claimed slot; without a slot it is released, not shared. */
  function SwapStep(s: Sys, id: nat, createdAt: nat): Sys {
    s.(heap := s.heap[s.nextId := FreshSlot(s.nextId, false, createdAt)],
       pool := Replace(s.pool, id, s.nextId),
       recycling := s.recycling - {id},
       nextId := s.nextId + 1)
  }

  /** Expired as the tick sees it; only Dedicated asks whether the context is idle as well. */
  predicate FindsExpired(scope: Scope, s: Sys, id: nat) {
    && id in s.pool && id in s.heap && s.heap[id].Expired(scope.lifecycle, s.now)
    && (scope.mode.Dedicated? ==> !s.heap[id].busy)
  }

  function RecycleClaimStep(s: Sys, scope: Scope, id: nat): Sys {
    if id in s.pool && id in s.heap && !s.heap[id].busy && s.heap[id].Expired(scope.lifecycle, s.now)
    then s.(heap := SetBusy(s.heap, id), recycling := s.recycling + {id}) else s
  }

  function TickTakeStep(s: Sys, scope: Scope, id: nat): Sys
    requires s.tick.Some?
  {
    if scope.mode.Reusable? && id in s.tick.value && id in s.heap && !s.heap[id].busy
    then s.(heap := SetBusy(s.heap, id), recycling := s.recycling + {id}) else s
  }

  function TickEndStep(s: Sys, scope: Scope): Sys
    requires s.tick.Some?
  {
    s.(pool := if scope.mode.Dedicated? then WithoutIds(s.pool, s.tick.value.Keys) else s.pool, tick := None)
  }

  function Next(scope: Scope, s: Sys, step: Step): Sys {
    match step
    case Elapse(d) => s.(now := s.now + d)
    case Scan(r, origin) =>
      if scope.mode.Reusable? && r !in s.reqs && s.tick.None?
      then s.(reqs := s.reqs[r := Scanning(CandidateIds(s, scope, origin))]) else s
    case Cas(r) =>
      if r in s.reqs && s.reqs[r].Scanning? then TryCas(s, r) else s
    case Reuse(r, origin) =>
      if scope.mode.Reusable? && r !in s.reqs && s.tick.None? then ReuseAtomically(s, scope, r, origin) else s
    case Acquire(r, dedicatedProxy, origin) =>
      if r !in s.reqs && WriteFree(s) then AcquireStep(s, scope, r, dedicatedProxy, origin) else s
    case Built(r, createdAt) =>
      if r in s.reqs && s.reqs[r].Building? && WriteFree(s) && createdAt <= s.now then BuiltStep(s, r, createdAt) else s
    case BuildLost(r) =>
      if r in s.reqs && s.reqs[r].Building?
      then s.(pending := if s.pending > 0 then s.pending - 1 else 0, reqs := s.reqs - {r}) else s
    case Lookup(r, id) =>
      if scope.mode.Dedicated? && r !in s.reqs && s.tick.None? && id in s.pool then s.(reqs := s.reqs[r := Looking(id)]) else s
    case EndIfUsedUp(r) =>
      if r in s.reqs && s.reqs[r].Looking? && WriteFree(s) then EndStep(s, scope, r, s.reqs[r].id) else s
    case Adopt(r) =>
      if r in s.reqs && s.reqs[r].Looking? && s.reqs[r].id in s.heap
      then if s.heap[s.reqs[r].id].busy then s.(reqs := s.reqs - {r}) else Claim(s, r, s.reqs[r].id)
      else s
    case Abandon(r) =>
      if r in s.reqs && s.reqs[r].Looking? then s.(reqs := s.reqs - {r}) else s
    case CountRequest(r) =>
      if r in s.reqs && s.reqs[r].Holding? && !s.reqs[r].counted && s.reqs[r].id in s.heap
      then var id := s.reqs[r].id;
           s.(heap := s.heap[id := s.heap[id].(requests := s.heap[id].requests + 1, lastUsedAt := s.now)],
              reqs := s.reqs[r := Holding(id, true)])
      else s
    case Block(r, blocked) =>
      if r in s.reqs && s.reqs[r].Holding? && s.reqs[r].id in s.heap
      then var id := s.reqs[r].id; s.(heap := s.heap[id := s.heap[id].(blocked := blocked)])
      else s
    case Destroy(r) =>
      if r in s.reqs && s.reqs[r].Holding? && WriteFree(s)
      then s.(pool := WithoutIds(s.pool, {s.reqs[r].id})) else s
    case Release(r) =>
      if r in s.reqs && s.reqs[r].Holding? && s.reqs[r].id in s.heap
      then ReleaseStep(s, scope, r, s.reqs[r].id) else s
    case Cleanup(id) =>
      if id in s.cleanups && WriteFree(s)
      then s.(pool := WithoutIds(s.pool, {id}), cleanups := s.cleanups - {id}) else s
    case Reclaim =>
      if scope.mode.AlwaysNew? && WriteFree(s) then ReclaimIdle(s) else s
    case TickBegin =>
      if !scope.mode.AlwaysNew? && WriteFree(s) then s.(tick := Some(map[])) else s
    case TickCheck(id) =>
      if s.tick.Some? && FindsExpired(scope, s, id)
      then s.(tick := Some(s.tick.value[id := Sighting(s.heap[id], s.now)])) else s
    case TickTake(id) => if s.tick.Some? then TickTakeStep(s, scope, id) else s
    case TickEnd => if s.tick.Some? then TickEndStep(s, scope) else s
    case RecycleClaim(id) =>
      if scope.mode.Reusable? && WriteFree(s) then RecycleClaimStep(s, scope, id) else s
    case RecycleSwap(id, createdAt) =>
      if id in s.recycling && WriteFree(s) && createdAt <= s.now then SwapStep(s, id, createdAt) else s
  }

  function Run(scope: Scope, s: Sys, steps: seq<Step>): Sys
    decreases |steps|
  {
    if steps == [] then s else Run(scope, Next(scope, s, steps[0]), steps[1..])
  }

  lemma {:induction false} RunOneMore(scope: Scope, s: Sys, steps: seq<Step>, last: Step)
    ensures Run(scope, s, steps + [last]) == Next(scope, Run(scope, s, steps), last)
    decreases |steps|
  {
    if steps != [] {
      assert (steps + [last])[1..] == steps[1..] + [last];
      RunOneMore(scope, Next(scope, s, steps[0]), steps[1..], last);
    } else {
      assert (steps + [last])[1..] == [];
    }
  }

  lemma {:induction false} RunAppend(scope: Scope, s: Sys, a: seq<Step>, b: seq<Step>)
    ensures Run(scope, s, a + b) == Run(scope, Run(scope, s, a), b)
    decreases |a|
  {
    if a == [] {
      assert a + b == b;
    } else {
      assert (a + b)[1..] == a[1..] + b;
      RunAppend(scope, Next(scope, s, a[0]), a[1..], b);
    }
  }

  /** The state after the first `k` steps. */
  function After(scope: Scope, s: Sys, steps: seq<Step>, k: nat): Sys
    requires k <= |steps|
  {
    Run(scope, s, steps[..k])
  }

  lemma AfterLast(scope: Scope, s: Sys, steps: seq<Step>, last: Step)
    ensures Run(scope, s, steps + [last]) == Next(scope, Run(scope, s, steps), last)
    ensures forall k: nat :: k <= |steps| ==> After(scope, s, steps + [last], k) == After(scope, s, steps, k)
    ensures After(scope, s, steps, |steps|) == Run(scope, s, steps)
  {
    RunOneMore(scope, s, steps, last);
    forall k: nat | k <= |steps| ensures After(scope, s, steps + [last], k) == After(scope, s, steps, k) {
      assert (steps + [last])[..k] == steps[..k];
    }
    assert steps[..|steps|] == steps;
  }

  lemma RunCons(scope: Scope, s: Sys, step: Step, rest: seq<Step>)
    ensures Run(scope, s, [step] + rest) == Run(scope, Next(scope, s, step), rest)
  {
    assert ([step] + rest)[1..] == rest;
  }

  /** A started pool: Reusable may pre-create up to `min_contexts` idle contexts. */
  function Start(scope: Scope, populated: nat, now: nat): Sys {
    var n := if scope.mode.Reusable? then populated else 0;
    Sys(map id: nat | 0 <= id < n :: FreshSlot(id, false, now), seq(n, i => i), 0, map[], {}, {}, None, n, now)
  }
}
