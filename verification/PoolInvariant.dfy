/** What every step of the pool keeps: its capacity, exact reservations, and one owner for each busy
    context. */
module PoolInvariant {
  import opened Wrappers
  import opened Lifecycle
  import opened PoolSpec
  import opened PoolProtocol

  ghost predicate Distinct(pool: seq<nat>) {
    forall i, j :: 0 <= i < j < |pool| ==> pool[i] != pool[j]
  }

  ghost predicate Shape(s: Sys) {
    && Distinct(s.pool)
    && (forall id :: id in s.pool ==> id in s.heap)
    && (forall id :: id in s.heap ==> id < s.nextId && s.heap[id].id == id)
  }

  /** Never more contexts than slots, reservations included, and the counter counts them. */
  ghost predicate Capacity(scope: Scope, s: Sys) {
    && |s.pool| + s.pending <= scope.maxContexts
    && s.pending == |Builders(s.reqs)|
  }

  /** A busy context in the pool has an owner, an owner's context is busy, and owners do not share. */
  ghost predicate Ownership(s: Sys) {
    && (forall r, id :: Holds(s, r, id) ==> id in s.heap && s.heap[id].busy && id !in s.recycling)
    && (forall r, q, id :: Holds(s, r, id) && Holds(s, q, id) ==> r == q)
    && (forall id :: id in s.recycling ==> id in s.heap && s.heap[id].busy)
    && (forall id :: id in s.pool && id in s.heap && s.heap[id].busy ==> Owned(s, id))
  }

  ghost predicate ModeRules(scope: Scope, s: Sys) {
    && (forall r :: r in s.reqs && s.reqs[r].Looking? ==> scope.mode.Dedicated? && s.reqs[r].id in s.heap)
    && (forall r :: r in s.reqs && s.reqs[r].Scanning? ==>
          scope.mode.Reusable? && (forall id :: id in s.reqs[r].candidates ==> id in s.pool))
    && (forall id :: id in s.recycling ==> scope.mode.Reusable? && id in s.pool)
    && (forall id :: id in s.cleanups ==> scope.mode.AlwaysNew? && id in s.heap && !s.heap[id].busy)
    && (s.tick.Some? ==>
          && !scope.mode.AlwaysNew? && (forall r :: r in s.reqs ==> !s.reqs[r].Scanning?)
          && (forall id :: id in s.tick.value ==> id in s.pool))
  }

  ghost predicate Inv(scope: Scope, s: Sys) {
    Shape(s) && Capacity(scope, s) && Ownership(s) && ModeRules(scope, s)
  }

  // ----- it holds in every run -----

  /** Capacity, exclusive ownership and the mode's rules survive every step of every actor. */
  lemma StepKeepsInv(scope: Scope, s: Sys, step: Step)
    requires Inv(scope, s)
    ensures Inv(scope, Next(scope, s, step))
  {
    match step
    case Elapse(d) => ElapseKeepsInv(scope, s, d);
    case Lookup(_, _) => ContinuationStepKeepsInv(scope, s, step);
    case EndIfUsedUp(_) => ContinuationStepKeepsInv(scope, s, step);
    case Adopt(_) => ContinuationStepKeepsInv(scope, s, step);
    case Abandon(_) => ContinuationStepKeepsInv(scope, s, step);
    case CountRequest(_) => HoldersStepKeepsInv(scope, s, step);
    case Block(_, _) => HoldersStepKeepsInv(scope, s, step);
    case Destroy(_) => HoldersStepKeepsInv(scope, s, step);
    case Release(_) => HoldersStepKeepsInv(scope, s, step);
    case Cleanup(id) => if id in s.cleanups && WriteFree(s) { CleanupKeepsInv(scope, s, id); }
    case Reclaim => MonitorStepKeepsInv(scope, s, step);
    case TickBegin => TickKeepsInv(scope, s, step);
    case TickCheck(_) => TickKeepsInv(scope, s, step);
    case TickTake(_) => TickKeepsInv(scope, s, step);
    case TickEnd => TickKeepsInv(scope, s, step);
    case RecycleClaim(_) => MonitorStepKeepsInv(scope, s, step);
    case RecycleSwap(_, _) => MonitorStepKeepsInv(scope, s, step);
    case _ => AcquisitionStepKeepsInv(scope, s, step);
  }

  lemma StartIsInv(scope: Scope, populated: nat, now: nat)
    requires scope.Accepted() && populated <= scope.minContexts
    ensures Inv(scope, Start(scope, populated, now))
  {
    var s := Start(scope, populated, now);
    assert Builders(s.reqs) == {};
  }

  lemma {:induction false} RunKeepsInv(scope: Scope, s: Sys, steps: seq<Step>)
    requires Inv(scope, s)
    ensures Inv(scope, Run(scope, s, steps))
    decreases |steps|
  {
    if steps != [] {
      StepKeepsInv(scope, s, steps[0]);
      RunKeepsInv(scope, Next(scope, s, steps[0]), steps[1..]);
    }
  }

  /** The states of the runs of an accepted scope. */
  ghost predicate Reachable(scope: Scope, s: Sys) {
    scope.Accepted() &&
    exists populated: nat, now: nat, steps: seq<Step> ::
      populated <= scope.minContexts && s == Run(scope, Start(scope, populated, now), steps)
  }

  lemma NextIsReachable(scope: Scope, s: Sys, step: Step)
    requires Reachable(scope, s)
    ensures Reachable(scope, Next(scope, s, step))
  {
    var populated: nat, now: nat, steps: seq<Step> :|
      populated <= scope.minContexts && s == Run(scope, Start(scope, populated, now), steps);
    RunOneMore(scope, Start(scope, populated, now), steps, step);
  }

  lemma ReachableIsInv(scope: Scope, s: Sys)
    requires Reachable(scope, s)
    ensures Inv(scope, s)
  {
    var populated: nat, now: nat, steps: seq<Step> :|
      populated <= scope.minContexts && s == Run(scope, Start(scope, populated, now), steps);
    StartIsInv(scope, populated, now);
    RunKeepsInv(scope, Start(scope, populated, now), steps);
  }

  // ----- sequences and counting -----

  lemma {:induction false} WithoutIdsKeepsDistinct(pool: seq<nat>, gone: set<nat>)
    requires Distinct(pool)
    ensures Distinct(WithoutIds(pool, gone))
  {
    if pool != [] {
      WithoutIdsKeepsDistinct(pool[1..], gone);
      assert pool[0] !in pool[1..];
    }
  }

  lemma {:induction false} WithoutOneIsShorter(pool: seq<nat>, id: nat)
    requires Distinct(pool)
    ensures |WithoutIds(pool, {id})| == |pool| - (if id in pool then 1 else 0)
  {
    if pool != [] {
      WithoutOneIsShorter(pool[1..], id);
      assert pool == [pool[0]] + pool[1..];
      assert pool[0] !in pool[1..];
    }
  }

  lemma BuildersAdd(reqs: map<nat, Phase>, r: nat, p: Phase)
    requires r !in reqs || !reqs[r].Building?
    ensures |Builders(reqs[r := p])| == |Builders(reqs)| + (if p.Building? then 1 else 0)
  {
    assert Builders(reqs[r := p]) == Builders(reqs) + (if p.Building? then {r} else {});
  }

  lemma BuildersEnd(reqs: map<nat, Phase>, r: nat)
    requires r in reqs && reqs[r].Building?
    ensures |Builders(reqs - {r})| == |Builders(reqs)| - 1 >= 0
    ensures forall p: Phase :: !p.Building? ==> Builders(reqs[r := p]) == Builders(reqs - {r})
  {
    assert Builders(reqs) == Builders(reqs - {r}) + {r};
  }

  lemma BuildersDrop(reqs: map<nat, Phase>, r: nat)
    requires r in reqs && !reqs[r].Building?
    ensures Builders(reqs - {r}) == Builders(reqs)
  {
  }

  // ----- why each step keeps the invariant -----

  lemma ClaimKeepsInv(scope: Scope, s: Sys, r: nat, id: nat)
    requires Inv(scope, s) && id in s.heap && !s.heap[id].busy
    requires r !in s.reqs || s.reqs[r].Scanning? || s.reqs[r].Looking?
    requires scope.mode.AlwaysNew? ==> id !in s.cleanups
    ensures Inv(scope, Claim(s, r, id))
  {
    var t := Claim(s, r, id);
    BuildersAdd(s.reqs, r, Holding(id, false));
    forall x | x in t.pool && x in t.heap && t.heap[x].busy ensures Owned(t, x) {
      if x == id {
        assert Holds(t, r, x);
      } else if x !in s.recycling {
        var q :| Holds(s, q, x);
        assert Holds(t, q, x);
      }
    }
    forall q, x | Holds(t, q, x) ensures x in t.heap && t.heap[x].busy && x !in t.recycling {
      if q != r { assert Holds(s, q, x); }
    }
    forall p, q, x | Holds(t, p, x) && Holds(t, q, x) ensures p == q {
      assert p != r ==> Holds(s, p, x);
      assert q != r ==> Holds(s, q, x);
    }
  }

  lemma ReserveKeepsInv(scope: Scope, s: Sys, r: nat)
    requires Inv(scope, s) && r !in s.reqs && |s.pool| + s.pending < scope.maxContexts
    ensures Inv(scope, Reserve(s, r))
  {
    var t := Reserve(s, r);
    BuildersAdd(s.reqs, r, Building);
    OwnersKept(s, t);
  }

  /** Removing contexts from the vector, and keeping every owner, breaks nothing. */
  lemma RemovalKeepsInv(scope: Scope, s: Sys, gone: set<nat>)
    requires Inv(scope, s) && WriteFree(s)
    requires forall id :: id in gone ==> id !in s.recycling
    ensures Inv(scope, s.(pool := WithoutIds(s.pool, gone)))
  {
    WithoutIdsKeepsDistinct(s.pool, gone);
    OwnersKept(s, s.(pool := WithoutIds(s.pool, gone)));
  }

  /** Ownership depends only on who holds what, and on the flags of what is in the pool. */
  lemma OwnersKept(s: Sys, t: Sys)
    requires Ownership(s)
    requires forall r, id :: Holds(t, r, id) <==> Holds(s, r, id)
    requires t.recycling == s.recycling
    requires forall id :: id in s.heap ==> id in t.heap && t.heap[id].busy == s.heap[id].busy
    requires forall id :: id in t.pool ==> id in s.pool && id in s.heap
    ensures Ownership(t)
  {
    forall x | x in t.pool && x in t.heap && t.heap[x].busy ensures Owned(t, x) {
      assert Owned(s, x);
      if x !in s.recycling {
        var q :| Holds(s, q, x);
        assert Holds(t, q, x);
      }
    }
  }

  lemma AcquireKeepsInv(scope: Scope, s: Sys, r: nat, dedicatedProxy: bool, origin: Option<Origin>)
    requires Inv(scope, s) && r !in s.reqs && WriteFree(s)
    ensures Inv(scope, AcquireStep(s, scope, r, dedicatedProxy, origin))
  {
    match scope.mode
    case AlwaysNew =>
      ReclaimKeepsInv(scope, s);
      var t := ReclaimIdle(s);
      if |t.pool| + t.pending < scope.maxContexts { ReserveKeepsInv(scope, t, r); }
    case Dedicated =>
      if |s.pool| + s.pending < scope.maxContexts { ReserveKeepsInv(scope, s, r); }
    case Reusable =>
      DecideIsSound(View(s), s.pending, scope.maxContexts, dedicatedProxy, origin, scope.lifecycle, s.now);
      match Decide(View(s), s.pending, scope.maxContexts, dedicatedProxy, origin, scope.lifecycle, s.now)
      case Claimed(i) => ClaimKeepsInv(scope, s, r, s.pool[i]);
      case Reserved => ReserveKeepsInv(scope, s, r);
      case Replaced(i) => ReplaceUsedUpKeepsInv(scope, s, r, s.pool[i]);
      case Refused =>
  }

  /** Removal and reservation in one section: the sum stays at the limit. */
  lemma ReplaceUsedUpKeepsInv(scope: Scope, s: Sys, r: nat, id: nat)
    requires Inv(scope, s) && WriteFree(s) && scope.mode.Reusable? && r !in s.reqs
    requires id in s.pool && !s.heap[id].busy
    ensures Inv(scope, Reserve(s.(heap := SetBusy(s.heap, id), pool := WithoutIds(s.pool, {id})), r))
  {
    var left := WithoutIds(s.pool, {id});
    WithoutOneIsShorter(s.pool, id);
    RemovalKeepsInv(scope, s, {id});
    BusyOutsideThePool(scope, s.(pool := left), id);
    ReserveKeepsInv(scope, s.(heap := SetBusy(s.heap, id), pool := left), r);
  }

  /** A context that has left the pool may be marked busy. */
  lemma BusyOutsideThePool(scope: Scope, s: Sys, id: nat)
    requires Inv(scope, s) && !scope.mode.AlwaysNew? && id in s.heap && id !in s.pool
    ensures Inv(scope, s.(heap := SetBusy(s.heap, id)))
  {
    var t := s.(heap := SetBusy(s.heap, id));
    assert forall q, x :: Holds(t, q, x) <==> Holds(s, q, x);
    forall x | x in t.pool && x in t.heap && t.heap[x].busy ensures Owned(t, x) {
      assert x != id && Owned(s, x);
      if x !in s.recycling {
        var q :| Holds(s, q, x);
        assert Holds(t, q, x);
      }
    }
  }

  lemma ReclaimKeepsInv(scope: Scope, s: Sys)
    requires Inv(scope, s) && WriteFree(s)
    ensures Inv(scope, ReclaimIdle(s))
  {
    RemovalKeepsInv(scope, s, IdleIds(s));
  }

  lemma BuiltKeepsInv(scope: Scope, s: Sys, r: nat, createdAt: nat)
    requires Inv(scope, s) && WriteFree(s) && r in s.reqs && s.reqs[r].Building?
    ensures Inv(scope, BuiltStep(s, r, createdAt))
  {
    var t := BuiltStep(s, r, createdAt);
    BuildersEnd(s.reqs, r);
    assert Builders(t.reqs) == Builders(s.reqs - {r});
    assert s.nextId !in s.heap && s.nextId !in s.pool;
    forall q, x | Holds(t, q, x) ensures (q == r && x == s.nextId) || (q != r && Holds(s, q, x)) {}
    forall x | x in t.pool && x in t.heap && t.heap[x].busy ensures Owned(t, x) {
      if x == s.nextId {
        assert Holds(t, r, x);
      } else if x !in s.recycling {
        var q :| Holds(s, q, x);
        assert Holds(t, q, x);
      }
    }
  }

  lemma LostKeepsInv(scope: Scope, s: Sys, r: nat)
    requires Inv(scope, s) && r in s.reqs && s.reqs[r].Building?
    ensures Inv(scope, Next(scope, s, BuildLost(r)))
  {
    BuildersEnd(s.reqs, r);
    OwnersKept(s, Next(scope, s, BuildLost(r)));
  }

  /** A request that owns nothing can go at any time. */
  lemma LeavingKeepsInv(scope: Scope, s: Sys, r: nat)
    requires Inv(scope, s) && r in s.reqs && (s.reqs[r].Looking? || s.reqs[r].Scanning?)
    ensures Inv(scope, s.(reqs := s.reqs - {r}))
  {
    BuildersDrop(s.reqs, r);
    OwnersKept(s, s.(reqs := s.reqs - {r}));
  }

  lemma EndKeepsInv(scope: Scope, s: Sys, r: nat)
    requires Inv(scope, s) && WriteFree(s) && r in s.reqs && s.reqs[r].Looking?
    ensures Inv(scope, EndStep(s, scope, r, s.reqs[r].id))
  {
    var id := s.reqs[r].id;
    var t := EndStep(s, scope, r, id);
    if t != s {
      RemovalKeepsInv(scope, s, {id});
      var u := s.(pool := WithoutIds(s.pool, {id}));
      LeavingKeepsInv(scope, u, r);
      var v := u.(reqs := u.reqs - {r});
      assert t == v.(heap := SetBusy(s.heap, id));
      BusyOutsideThePool(scope, v, id);
    }
  }

  lemma HeldUpdateKeepsInv(scope: Scope, s: Sys, t: Sys, r: nat, id: nat, c: Slot)
    requires Inv(scope, s) && Holds(s, r, id)
    requires c.busy && c.id == id
    requires exists counted :: t == s.(heap := s.heap[id := c], reqs := s.reqs[r := Holding(id, counted)])
    ensures Inv(scope, t)
  {
    BuildersAdd(s.reqs, r, t.reqs[r]);
    assert forall q, x :: Holds(t, q, x) <==> Holds(s, q, x);
    assert id in s.heap && s.heap[id].busy;
    OwnersKept(s, t);
  }

  lemma ReleaseKeepsInv(scope: Scope, s: Sys, r: nat)
    requires Inv(scope, s) && r in s.reqs && s.reqs[r].Holding?
    ensures s.reqs[r].id in s.heap && Inv(scope, ReleaseStep(s, scope, r, s.reqs[r].id))
  {
    var id := s.reqs[r].id;
    assert Holds(s, r, id);
    var t := ReleaseStep(s, scope, r, id);
    BuildersDrop(s.reqs, r);
    forall q, x | Holds(t, q, x) ensures Holds(s, q, x) && x != id && q != r {
      assert Holds(s, q, x);
    }
    forall x | x in t.pool && x in t.heap && t.heap[x].busy ensures Owned(t, x) {
      assert x != id && Owned(s, x);
      if x !in s.recycling {
        var q :| Holds(s, q, x);
        assert Holds(t, q, x);
      }
    }
  }

  lemma RecycleClaimKeepsInv(scope: Scope, s: Sys, id: nat)
    requires Inv(scope, s) && scope.mode.Reusable? && id in s.pool && !s.heap[id].busy
    ensures Inv(scope, s.(heap := SetBusy(s.heap, id), recycling := s.recycling + {id}))
  {
    var t := s.(heap := SetBusy(s.heap, id), recycling := s.recycling + {id});
    assert forall q, x :: Holds(t, q, x) <==> Holds(s, q, x);
    forall x | x in t.pool && x in t.heap && t.heap[x].busy ensures Owned(t, x) {
      if x !in t.recycling {
        assert Owned(s, x);
        var q :| Holds(s, q, x);
        assert Holds(t, q, x);
      }
    }
  }

  lemma SwapKeepsInv(scope: Scope, s: Sys, id: nat, createdAt: nat)
    requires Inv(scope, s) && WriteFree(s) && id in s.recycling
    ensures Inv(scope, SwapStep(s, id, createdAt))
  {
    var t := SwapStep(s, id, createdAt);
    assert s.nextId !in s.heap && s.nextId !in s.pool;
    assert forall q, x :: Holds(t, q, x) <==> Holds(s, q, x);
    forall x | x in t.pool && x in t.heap && t.heap[x].busy ensures Owned(t, x) {
      assert x != s.nextId && x in s.pool && x != id && Owned(s, x);
      if x !in t.recycling {
        var q :| Holds(s, q, x);
        assert Holds(t, q, x);
      }
    }
    forall x | x in t.recycling ensures x in t.pool {
      var i :| 0 <= i < |s.pool| && s.pool[i] == x;
      assert t.pool[i] == x;
    }
  }

  lemma ScanKeepsInv(scope: Scope, s: Sys, r: nat, origin: Option<Origin>)
    requires Inv(scope, s) && scope.mode.Reusable? && r !in s.reqs && s.tick.None?
    ensures Inv(scope, Next(scope, s, Scan(r, origin)))
  {
    BuildersAdd(s.reqs, r, Scanning(CandidateIds(s, scope, origin)));
    OwnersKept(s, Next(scope, s, Scan(r, origin)));
  }

  lemma CasKeepsInv(scope: Scope, s: Sys, r: nat)
    requires Inv(scope, s) && r in s.reqs && s.reqs[r].Scanning?
    ensures Inv(scope, TryCas(s, r))
  {
    var c := s.reqs[r].candidates;
    if c == [] {
      LeavingKeepsInv(scope, s, r);
    } else {
      assert c[0] in s.pool;
      if !s.heap[c[0]].busy {
        ClaimKeepsInv(scope, s, r, c[0]);
      } else {
        BuildersAdd(s.reqs, r, Scanning(c[1..]));
        OwnersKept(s, TryCas(s, r));
      }
    }
  }

  lemma ReuseKeepsInv(scope: Scope, s: Sys, r: nat, origin: Option<Origin>)
    requires Inv(scope, s) && scope.mode.Reusable? && r !in s.reqs
    ensures Inv(scope, ReuseAtomically(s, scope, r, origin))
  {
    var ranks := LeastUsedRanks(View(s), origin, scope.lifecycle, s.now);
    BestIsBest(ranks);
    if Best(ranks).Some? {
      ClaimKeepsInv(scope, s, r, s.pool[Best(ranks).value]);
    }
  }

  lemma LookupKeepsInv(scope: Scope, s: Sys, r: nat, id: nat)
    requires Inv(scope, s) && scope.mode.Dedicated? && r !in s.reqs && id in s.pool
    ensures Inv(scope, s.(reqs := s.reqs[r := Looking(id)]))
  {
    BuildersAdd(s.reqs, r, Looking(id));
    OwnersKept(s, s.(reqs := s.reqs[r := Looking(id)]));
  }

  lemma HoldersStepKeepsInv(scope: Scope, s: Sys, step: Step)
    requires Inv(scope, s) && (step.CountRequest? || step.Block? || step.Destroy? || step.Release?)
    ensures Inv(scope, Next(scope, s, step))
  {
    var r, t := step.r, Next(scope, s, step);
    if r in s.reqs && s.reqs[r].Holding? && t != s {
      var id := s.reqs[r].id;
      assert Holds(s, r, id);
      match step
      case CountRequest(_) => HeldUpdateKeepsInv(scope, s, t, r, id, t.heap[id]);
      case Block(_, _) =>
        assert s.reqs == s.reqs[r := Holding(id, s.reqs[r].counted)];
        HeldUpdateKeepsInv(scope, s, t, r, id, t.heap[id]);
      case Destroy(_) => RemovalKeepsInv(scope, s, {id});
      case Release(_) => ReleaseKeepsInv(scope, s, r);
    }
  }

  lemma TickKeepsInv(scope: Scope, s: Sys, step: Step)
    requires Inv(scope, s) && (step.TickBegin? || step.TickCheck? || step.TickTake? || step.TickEnd?)
    ensures Inv(scope, Next(scope, s, step))
  {
    var t := Next(scope, s, step);
    if t == s { return; }
    match step
    case TickBegin => OwnersKept(s, t);
    case TickCheck(_) => OwnersKept(s, t);
    case TickTake(id) => RecycleClaimKeepsInv(scope, s, id);
    case TickEnd => TickEndKeepsInv(scope, s);
  }

  lemma TickEndKeepsInv(scope: Scope, s: Sys)
    requires Inv(scope, s) && s.tick.Some?
    ensures Inv(scope, TickEndStep(s, scope))
  {
    OwnersKept(s, s.(tick := None));
    if scope.mode.Dedicated? { RemovalKeepsInv(scope, s.(tick := None), s.tick.value.Keys); }
  }

  lemma MonitorStepKeepsInv(scope: Scope, s: Sys, step: Step)
    requires Inv(scope, s)
    requires step.Reclaim? || step.RecycleClaim? || step.RecycleSwap?
    ensures Inv(scope, Next(scope, s, step))
  {
    if Next(scope, s, step) == s { return; }
    match step
    case Reclaim => ReclaimKeepsInv(scope, s);
    case RecycleClaim(id) => RecycleClaimKeepsInv(scope, s, id);
    case RecycleSwap(id, createdAt) => SwapKeepsInv(scope, s, id, createdAt);
  }

  lemma CleanupKeepsInv(scope: Scope, s: Sys, id: nat)
    requires Inv(scope, s) && WriteFree(s) && id in s.cleanups
    ensures Inv(scope, s.(pool := WithoutIds(s.pool, {id}), cleanups := s.cleanups - {id}))
  {
    RemovalKeepsInv(scope, s, {id});
    OwnersKept(s, s.(pool := WithoutIds(s.pool, {id}), cleanups := s.cleanups - {id}));
  }

  lemma ElapseKeepsInv(scope: Scope, s: Sys, d: nat)
    requires Inv(scope, s)
    ensures Inv(scope, s.(now := s.now + d))
  {
    OwnersKept(s, s.(now := s.now + d));
  }

  // ----- one step, by kind -----

  lemma ContinuationStepKeepsInv(scope: Scope, s: Sys, step: Step)
    requires Inv(scope, s) && (step.Lookup? || step.EndIfUsedUp? || step.Adopt? || step.Abandon?)
    ensures Inv(scope, Next(scope, s, step))
  {
    if Next(scope, s, step) == s { return; }
    match step
    case Lookup(r, id) => LookupKeepsInv(scope, s, r, id);
    case EndIfUsedUp(r) => EndKeepsInv(scope, s, r);
    case Adopt(r) =>
      if s.heap[s.reqs[r].id].busy { LeavingKeepsInv(scope, s, r); }
      else { ClaimKeepsInv(scope, s, r, s.reqs[r].id); }
    case Abandon(r) => LeavingKeepsInv(scope, s, r);
  }

  lemma AcquisitionStepKeepsInv(scope: Scope, s: Sys, step: Step)
    requires Inv(scope, s)
    requires step.Scan? || step.Cas? || step.Reuse? || step.Acquire? || step.Built? || step.BuildLost?
    ensures Inv(scope, Next(scope, s, step))
  {
    if Next(scope, s, step) == s { return; }
    match step
    case Scan(r, origin) => ScanKeepsInv(scope, s, r, origin);
    case Cas(r) => CasKeepsInv(scope, s, r);
    case Reuse(r, origin) => ReuseKeepsInv(scope, s, r, origin);
    case Acquire(r, dedicatedProxy, origin) => AcquireKeepsInv(scope, s, r, dedicatedProxy, origin);
    case Built(r, createdAt) => BuiltKeepsInv(scope, s, r, createdAt);
    case BuildLost(r) => LostKeepsInv(scope, s, r);
  }
}
