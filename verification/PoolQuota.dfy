/** Request quota, age limit and balance of the pool, over whole runs. */
module PoolQuota {
  import opened Wrappers
  import opened Lifecycle
  import opened PoolSpec
  import opened PoolProtocol
  import opened PoolInvariant

  function Quota(scope: Scope): nat {
    if scope.lifecycle.maxRequests == 0 then 1 else scope.lifecycle.maxRequests
  }

  /** No context is past its quota, and one that is owed a request still has room for it. */
  ghost predicate WithinQuota(scope: Scope, s: Sys) {
    && (forall id :: id in s.heap ==> s.heap[id].requests <= Quota(scope))
    && (forall r, id :: Holds(s, r, id) && id in s.heap && !s.reqs[r].counted ==> s.heap[id].requests < Quota(scope))
  }

  /** The next compare-and-swap of a scan wins a context. */
  predicate Wins(s: Sys, step: Step) {
    && step.Cas? && step.r in s.reqs && s.reqs[step.r].Scanning? && s.reqs[step.r].candidates != []
    && var id := s.reqs[step.r].candidates[0]; id in s.heap && !s.heap[id].busy
  }

  function Won(s: Sys, step: Step): Slot
    requires Wins(s, step)
  {
    s.heap[s.reqs[step.r].candidates[0]]
  }

  /** It wins one that reached its quota after it was listed: what try_claim does not check. */
  predicate TakesStale(scope: Scope, s: Sys, step: Step) {
    Wins(s, step) && Won(s, step).requests >= Quota(scope)
  }

  predicate TakesUsedUp(scope: Scope, s: Sys, step: Step) {
    Wins(s, step) && Won(s, step).UsedUp(scope.lifecycle, s.now)
  }

  lemma ReuseClaimsUnused(scope: Scope, s: Sys, step: Step, r: nat, id: nat)
    requires Inv(scope, s) && step.Reuse?
    requires id in s.heap && Holds(Next(scope, s, step), r, id) && !Holds(s, r, id)
    ensures !s.heap[id].busy && !s.heap[id].UsedUp(scope.lifecycle, s.now)
  {
    BestIsBest(LeastUsedRanks(View(s), step.origin, scope.lifecycle, s.now));
  }

  lemma ReusableClaimsUnused(scope: Scope, s: Sys, q: nat, dedicatedProxy: bool, origin: Option<Origin>, r: nat, id: nat)
    requires Shape(s) && q !in s.reqs
    requires Holds(AcquireReusable(s, scope, q, dedicatedProxy, origin), r, id) && !Holds(s, r, id)
    ensures id in s.heap && !s.heap[id].busy && !s.heap[id].UsedUp(scope.lifecycle, s.now)
  {
    var g := Decide(View(s), s.pending, scope.maxContexts, dedicatedProxy, origin, scope.lifecycle, s.now);
    DecideIsSound(View(s), s.pending, scope.maxContexts, dedicatedProxy, origin, scope.lifecycle, s.now);
    match g
    case Claimed(i) =>
      assert s.pool[i] in s.pool && View(s)[i] == s.heap[s.pool[i]];
      assert AcquireReusable(s, scope, q, dedicatedProxy, origin) == Claim(s, q, s.pool[i]);
    case _ =>
  }

  lemma AcquireClaimsUnused(scope: Scope, s: Sys, step: Step, r: nat, id: nat)
    requires Inv(scope, s) && step.Acquire?
    requires id in s.heap && Holds(Next(scope, s, step), r, id) && !Holds(s, r, id)
    ensures !s.heap[id].busy && !s.heap[id].UsedUp(scope.lifecycle, s.now)
  {
    assert step.r !in s.reqs && Next(scope, s, step) == AcquireStep(s, scope, step.r, step.dedicatedProxy, step.origin);
    if scope.mode.Reusable? {
      ReusableClaimsUnused(scope, s, step.r, step.dedicatedProxy, step.origin, r, id);
    } else {
      ReservationHoldsNothing(scope, s, step.r, step.dedicatedProxy, step.origin, r, id);
    }
  }

  lemma ReservationHoldsNothing(scope: Scope, s: Sys, q: nat, dedicatedProxy: bool, origin: Option<Origin>, r: nat, id: nat)
    requires !scope.mode.Reusable? && q !in s.reqs
    ensures Holds(AcquireStep(s, scope, q, dedicatedProxy, origin), r, id) ==> Holds(s, r, id)
  {
  }

  lemma OtherStepsClaimNothingOld(scope: Scope, s: Sys, step: Step, r: nat, id: nat)
    requires Inv(scope, s) && !step.Cas? && !step.Adopt? && !step.Reuse? && !step.Acquire?
    requires Holds(Next(scope, s, step), r, id) && !Holds(s, r, id)
    ensures id !in s.heap
  {
  }

  /** A context that was already in the pool is claimed only while it is idle and, by one atomic
      selection, only while it is not used up: under an age-bounding strategy never past
      `max_lifetime`. */
  lemma ClaimsAreNotUsedUp(scope: Scope, s: Sys, step: Step, r: nat, id: nat)
    requires Inv(scope, s) && !scope.mode.Dedicated?
    requires id in s.heap && Holds(Next(scope, s, step), r, id) && !Holds(s, r, id)
    ensures !s.heap[id].busy
    ensures step.Cas? || !s.heap[id].UsedUp(scope.lifecycle, s.now)
    ensures !step.Cas? && !scope.lifecycle.rotation.RequestBasedOnly? ==>
              Elapsed(s.heap[id].createdAt, s.now) <= scope.lifecycle.maxLifetime
    ensures !step.Cas? && !scope.lifecycle.rotation.TimeBasedOnly? ==> s.heap[id].requests < scope.lifecycle.maxRequests
  {
    if step.Reuse? { ReuseClaimsUnused(scope, s, step, r, id); }
    else if step.Acquire? { AcquireClaimsUnused(scope, s, step, r, id); }
    else if !step.Cas? && !step.Adopt? { OtherStepsClaimNothingOld(scope, s, step, r, id); }
  }

  ghost predicate NewlyHeld(scope: Scope, s: Sys, step: Step, r: nat, id: nat) {
    id in s.heap && Holds(Next(scope, s, step), r, id) && !Holds(s, r, id)
  }

  /** A used-up context goes to a request exactly when a compare-and-swap wins one that was used up
      since it was listed. */
  lemma UsedUpIsClaimedIff(scope: Scope, s: Sys, step: Step)
    requires Inv(scope, s) && !scope.mode.Dedicated?
    ensures (exists r, id :: NewlyHeld(scope, s, step, r, id) && s.heap[id].UsedUp(scope.lifecycle, s.now))
       <==> TakesUsedUp(scope, s, step)
  {
    if TakesUsedUp(scope, s, step) {
      assert NewlyHeld(scope, s, step, step.r, s.reqs[step.r].candidates[0]);
    }
    if r, id :| NewlyHeld(scope, s, step, r, id) && s.heap[id].UsedUp(scope.lifecycle, s.now) {
      ClaimsAreNotUsedUp(scope, s, step, r, id);
      CasHoldsItsWin(scope, s, step, r, id);
    }
  }

  lemma CasHoldsItsWin(scope: Scope, s: Sys, step: Step, r: nat, id: nat)
    requires step.Cas? && Holds(Next(scope, s, step), r, id) && !Holds(s, r, id)
    ensures Wins(s, step) && step.r == r && s.reqs[r].candidates[0] == id
  {
  }

  /** A listed candidate was idle, not used up and not quarantined for the origin when it was listed. */
  lemma ScansListTheEligible(scope: Scope, s: Sys, r: nat, origin: Option<Origin>, id: nat)
    requires Inv(scope, s) && WriteFree(s) && scope.mode.Reusable? && r !in s.reqs
    ensures var t := Next(scope, s, Scan(r, origin));
            && r in t.reqs && t.reqs[r].Scanning?
            && (id in t.reqs[r].candidates <==> id in s.pool && s.heap[id].Eligible(origin, scope.lifecycle, s.now))
  {
    var ranks := LeastUsedRanks(View(s), origin, scope.lifecycle, s.now);
    var order := Order(ranks);
    var ids := CandidateIds(s, scope, origin);
    OrderUpToIsOrder(ranks, |ranks|);
    forall k | 0 <= k < |order| ensures ids[k] in s.pool && s.heap[ids[k]].Eligible(origin, scope.lifecycle, s.now) {
      assert order[k] in order && Ranked(ranks, order[k]);
      assert s.pool[order[k]] in s.pool;
    }
    if id in s.pool && s.heap[id].Eligible(origin, scope.lifecycle, s.now) {
      var i :| 0 <= i < |s.pool| && s.pool[i] == id;
      assert ranks[i].Some? && Ranked(ranks, i) && i in order;
      var k :| 0 <= k < |order| && order[k] == i;
      assert ids[k] == id;
    }
  }

  /** How a step moves one context's request count. */
  ghost predicate CountMoved(s: Sys, step: Step, t: Sys, id: nat) {
    id in t.heap ==>
      if id !in s.heap then t.heap[id].requests == 0
      else if step.CountRequest? && Holds(s, step.r, id) && !s.reqs[step.r].counted
      then t.heap[id].requests == s.heap[id].requests + 1
      else t.heap[id].requests == s.heap[id].requests
  }

  ghost predicate SameCounts(s: Sys, t: Sys) {
    t.heap.Keys == s.heap.Keys && forall id :: id in s.heap ==> t.heap[id].requests == s.heap[id].requests
  }

  lemma ReusableAcquireLeavesCounts(scope: Scope, s: Sys, r: nat, dedicatedProxy: bool, origin: Option<Origin>)
    ensures SameCounts(s, AcquireReusable(s, scope, r, dedicatedProxy, origin))
  {
    DecideIsSound(View(s), s.pending, scope.maxContexts, dedicatedProxy, origin, scope.lifecycle, s.now);
    var g := Decide(View(s), s.pending, scope.maxContexts, dedicatedProxy, origin, scope.lifecycle, s.now);
    match g
    case Claimed(i) =>
    case Replaced(i) =>
    case _ =>
  }

  lemma AcquireLeavesCounts(scope: Scope, s: Sys, step: Step, id: nat)
    requires Shape(s) && (step.Acquire? || step.Reuse?)
    ensures CountMoved(s, step, Next(scope, s, step), id)
  {
    if step.Reuse? {
      BestIsBest(LeastUsedRanks(View(s), step.origin, scope.lifecycle, s.now));
    } else if scope.mode.Reusable? {
      ReusableAcquireLeavesCounts(scope, s, step.r, step.dedicatedProxy, step.origin);
    }
  }

  /** Request counts move in one way only: the owner of a hold not yet counted adds one. */
  lemma RequestsMoveByCounting(scope: Scope, s: Sys, step: Step, id: nat)
    requires Shape(s)
    ensures CountMoved(s, step, Next(scope, s, step), id)
  {
    if step.Acquire? || step.Reuse? {
      AcquireLeavesCounts(scope, s, step, id);
    }
  }

  lemma UncountedHoldsAreOldOrClaimed(scope: Scope, s: Sys, step: Step, r: nat, id: nat)
    requires Holds(Next(scope, s, step), r, id) && !Next(scope, s, step).reqs[r].counted
    requires Holds(s, r, id)
    ensures !s.reqs[r].counted
  {
    if step.Acquire? && r != step.r { AcquireLeavesOthers(scope, s, step.r, step.dedicatedProxy, step.origin, r); }
  }

  lemma AcquireLeavesOthers(scope: Scope, s: Sys, q: nat, dedicatedProxy: bool, origin: Option<Origin>, r: nat)
    requires r in s.reqs && r != q
    ensures var t := AcquireStep(s, scope, q, dedicatedProxy, origin); r in t.reqs && t.reqs[r] == s.reqs[r]
  {
  }

  lemma HoldStaysOwed(scope: Scope, s: Sys, step: Step, r: nat, id: nat)
    requires Inv(scope, s) && WithinQuota(scope, s)
    requires !scope.mode.Dedicated? && !scope.lifecycle.rotation.TimeBasedOnly? && !TakesStale(scope, s, step)
    requires Holds(Next(scope, s, step), r, id) && !Next(scope, s, step).reqs[r].counted
    requires id in Next(scope, s, step).heap
    ensures Next(scope, s, step).heap[id].requests < Quota(scope)
  {
    RequestsMoveByCounting(scope, s, step, id);
    if Holds(s, r, id) {
      UncountedHoldsAreOldOrClaimed(scope, s, step, r, id);
    } else if id in s.heap {
      ClaimsAreNotUsedUp(scope, s, step, r, id);
      if step.Cas? { CasHoldsItsWin(scope, s, step, r, id); }
      NewHoldsCountNothing(scope, s, step, r, id);
    }
  }

  lemma NewHoldsCountNothing(scope: Scope, s: Sys, step: Step, r: nat, id: nat)
    requires Holds(Next(scope, s, step), r, id) && !Holds(s, r, id)
    ensures !step.CountRequest?
  {
  }

  /** A step keeps every context within its quota if and only if it is not a compare-and-swap that
      wins a context whose quota was used since it was listed. */
  lemma QuotaSurvivesIff(scope: Scope, s: Sys, step: Step)
    requires Inv(scope, s) && WithinQuota(scope, s)
    requires !scope.mode.Dedicated? && !scope.lifecycle.rotation.TimeBasedOnly?
    ensures WithinQuota(scope, Next(scope, s, step)) <==> !TakesStale(scope, s, step)
  {
    var t := Next(scope, s, step);
    if TakesStale(scope, s, step) {
      var id := s.reqs[step.r].candidates[0];
      assert Holds(t, step.r, id) && !t.reqs[step.r].counted && t.heap[id].requests >= Quota(scope);
    } else {
      forall id | id in t.heap ensures t.heap[id].requests <= Quota(scope) {
        RequestsMoveByCounting(scope, s, step, id);
      }
      forall r, id | Holds(t, r, id) && id in t.heap && !t.reqs[r].counted
        ensures t.heap[id].requests < Quota(scope)
      {
        HoldStaysOwed(scope, s, step, r, id);
      }
    }
  }

  /** No compare-and-swap of the run wins a context past its quota. Scans are free to interleave. */
  predicate NeverTakesStale(scope: Scope, s: Sys, steps: seq<Step>)
    decreases |steps|
  {
    steps == [] || (!TakesStale(scope, s, steps[0]) && NeverTakesStale(scope, Next(scope, s, steps[0]), steps[1..]))
  }

  ghost predicate AlwaysWithinQuota(scope: Scope, s: Sys, steps: seq<Step>)
    decreases |steps|
  {
    WithinQuota(scope, s) && (steps == [] || AlwaysWithinQuota(scope, Next(scope, s, steps[0]), steps[1..]))
  }

  /** And so for runs: the quota holds throughout exactly when no such compare-and-swap occurs. */
  lemma {:induction false} RunStaysWithinQuotaIff(scope: Scope, s: Sys, steps: seq<Step>)
    requires Inv(scope, s) && WithinQuota(scope, s)
    requires !scope.mode.Dedicated? && !scope.lifecycle.rotation.TimeBasedOnly?
    ensures AlwaysWithinQuota(scope, s, steps) <==> NeverTakesStale(scope, s, steps)
    decreases |steps|
  {
    if steps != [] {
      StepKeepsInv(scope, s, steps[0]);
      QuotaSurvivesIff(scope, s, steps[0]);
      if !TakesStale(scope, s, steps[0]) { RunStaysWithinQuotaIff(scope, Next(scope, s, steps[0]), steps[1..]); }
      else { assert !WithinQuota(scope, Next(scope, s, steps[0])); }
    }
  }

  lemma {:induction false} AlwaysMeansAtTheEnd(scope: Scope, s: Sys, steps: seq<Step>)
    requires AlwaysWithinQuota(scope, s, steps)
    ensures WithinQuota(scope, Run(scope, s, steps))
    decreases |steps|
  {
    if steps != [] { AlwaysMeansAtTheEnd(scope, Next(scope, s, steps[0]), steps[1..]); }
  }

  /** From the start of an accepted scope: no context serves more than `max(1, max_requests)`
      requests in any run without such a compare-and-swap. */
  lemma QuotaInEveryRun(scope: Scope, populated: nat, now: nat, steps: seq<Step>)
    requires scope.Accepted() && populated <= scope.minContexts
    requires !scope.mode.Dedicated? && !scope.lifecycle.rotation.TimeBasedOnly?
    requires NeverTakesStale(scope, Start(scope, populated, now), steps)
    ensures var s := Run(scope, Start(scope, populated, now), steps);
            forall id :: id in s.heap ==> s.heap[id].requests <= 1 || s.heap[id].requests <= scope.lifecycle.maxRequests
  {
    StartIsInv(scope, populated, now);
    RunStaysWithinQuotaIff(scope, Start(scope, populated, now), steps);
    AlwaysMeansAtTheEnd(scope, Start(scope, populated, now), steps);
  }

  // ----- the served counts alone -----

  /** A request holds a context that had used its quota when it got it, and has not been counted yet. */
  ghost predicate OverdueHold(scope: Scope, s: Sys, r: nat, id: nat) {
    Holds(s, r, id) && id in s.heap && !s.reqs[r].counted && s.heap[id].requests >= Quota(scope)
  }

  /** It is counted now. */
  predicate CountsOverdue(scope: Scope, s: Sys, step: Step) {
    && step.CountRequest? && step.r in s.reqs && s.reqs[step.r].Holding? && !s.reqs[step.r].counted
    && s.reqs[step.r].id in s.heap && s.heap[s.reqs[step.r].id].requests >= Quota(scope)
  }

  ghost predicate ServedWithinQuota(scope: Scope, s: Sys) {
    forall id :: id in s.heap ==> s.heap[id].requests <= Quota(scope)
  }

  lemma ServedStepIff(scope: Scope, s: Sys, step: Step)
    requires Inv(scope, s) && ServedWithinQuota(scope, s)
    ensures ServedWithinQuota(scope, Next(scope, s, step)) <==> !CountsOverdue(scope, s, step)
  {
    var t := Next(scope, s, step);
    if CountsOverdue(scope, s, step) {
      var id := s.reqs[step.r].id;
      assert Holds(s, step.r, id);
      RequestsMoveByCounting(scope, s, step, id);
      assert id in t.heap && t.heap[id].requests == s.heap[id].requests + 1;
    } else {
      forall id | id in t.heap ensures t.heap[id].requests <= Quota(scope) {
        RequestsMoveByCounting(scope, s, step, id);
      }
    }
  }

  /** No context ever serves more than its quota in a run exactly when no overdue hold is counted. */
  lemma {:induction false} RunServesWithinQuotaIff(scope: Scope, s: Sys, steps: seq<Step>)
    requires Inv(scope, s) && ServedWithinQuota(scope, s)
    ensures (forall k: nat :: k <= |steps| ==> ServedWithinQuota(scope, After(scope, s, steps, k)))
       <==> (forall k: nat :: k < |steps| ==> !CountsOverdue(scope, After(scope, s, steps, k), steps[k]))
    decreases |steps|
  {
    if steps == [] {
      assert steps[..0] == [];
      return;
    }
    var earlier, last := steps[..|steps| - 1], steps[|steps| - 1];
    assert steps == earlier + [last];
    RunServesWithinQuotaIff(scope, s, earlier);
    AfterLast(scope, s, earlier, last);
    RunKeepsInv(scope, s, earlier);
    var before := Run(scope, s, earlier);
    assert After(scope, s, steps, |earlier|) == before && After(scope, s, steps, |steps|) == Next(scope, before, last) by {
      assert steps[..|steps|] == steps;
    }
    if ServedWithinQuota(scope, before) { ServedStepIff(scope, before, last); }
    assert forall k: nat :: k <= |earlier| ==> After(scope, s, steps, k) == After(scope, s, earlier, k);
    assert forall k: nat :: k < |earlier| ==> steps[k] == earlier[k];
  }

  /** The compare-and-swap of step `j` wins `id` for `r` past its quota. */
  ghost predicate WonStaleAt(scope: Scope, s: Sys, steps: seq<Step>, j: nat, r: nat, id: nat) {
    && j < |steps| && steps[j] == Cas(r)
    && TakesStale(scope, After(scope, s, steps, j), steps[j])
    && After(scope, s, steps, j).reqs[r].candidates[0] == id
  }

  lemma OverdueStep(scope: Scope, s: Sys, step: Step, r: nat, id: nat)
    requires Inv(scope, s) && !scope.mode.Dedicated? && !scope.lifecycle.rotation.TimeBasedOnly?
    requires OverdueHold(scope, Next(scope, s, step), r, id) && !OverdueHold(scope, s, r, id)
    ensures step == Cas(r) && TakesStale(scope, s, step) && s.reqs[r].candidates[0] == id
  {
    RequestsMoveByCounting(scope, s, step, id);
    if Holds(s, r, id) {
      UncountedHoldsAreOldOrClaimed(scope, s, step, r, id);
      assert false;
    }
    ClaimsAreNotUsedUp(scope, s, step, r, id);
    NewHoldsCountNothing(scope, s, step, r, id);
    assert step.Cas?;
    CasHoldsItsWin(scope, s, step, r, id);
  }

  /** And an overdue hold goes back to such a win: the quota is exceeded by a stale compare-and-swap whose
      request is then counted, and in no other way. */
  lemma {:induction false} OverdueWasWonStale(scope: Scope, s: Sys, steps: seq<Step>, r: nat, id: nat)
    requires Inv(scope, s) && WithinQuota(scope, s)
    requires !scope.mode.Dedicated? && !scope.lifecycle.rotation.TimeBasedOnly?
    requires OverdueHold(scope, Run(scope, s, steps), r, id)
    ensures exists j: nat :: WonStaleAt(scope, s, steps, j, r, id)
    decreases |steps|
  {
    if steps == [] { assert false; }
    var earlier, last := steps[..|steps| - 1], steps[|steps| - 1];
    assert steps == earlier + [last];
    AfterLast(scope, s, earlier, last);
    RunKeepsInv(scope, s, earlier);
    var before := Run(scope, s, earlier);
    if OverdueHold(scope, before, r, id) {
      OverdueWasWonStale(scope, s, earlier, r, id);
      var j: nat :| WonStaleAt(scope, s, earlier, j, r, id);
      assert WonStaleAt(scope, s, steps, j, r, id);
    } else {
      OverdueStep(scope, before, last, r, id);
      assert WonStaleAt(scope, s, steps, |earlier|, r, id);
    }
  }

  /** Runs whose every claim is one atomic step have none. */
  lemma {:induction false} AtomicClaimsAreNeverStale(scope: Scope, s: Sys, steps: seq<Step>)
    requires forall r :: r in s.reqs ==> !s.reqs[r].Scanning?
    requires forall i :: 0 <= i < |steps| ==> !steps[i].Scan?
    ensures NeverTakesStale(scope, s, steps)
    decreases |steps|
  {
    if steps != [] {
      NobodyScans(scope, s, steps[0]);
      AtomicClaimsAreNeverStale(scope, Next(scope, s, steps[0]), steps[1..]);
    }
  }

  lemma NobodyScans(scope: Scope, s: Sys, step: Step)
    requires (forall r :: r in s.reqs ==> !s.reqs[r].Scanning?) && !step.Scan?
    ensures forall r :: r in Next(scope, s, step).reqs ==> !Next(scope, s, step).reqs[r].Scanning?
  {
    if step.Acquire? { AcquireDoesNotScan(scope, s, step.r, step.dedicatedProxy, step.origin); }
  }

  lemma AcquireDoesNotScan(scope: Scope, s: Sys, q: nat, dedicatedProxy: bool, origin: Option<Origin>)
    requires forall r :: r in s.reqs ==> !s.reqs[r].Scanning?
    ensures var t := AcquireStep(s, scope, q, dedicatedProxy, origin); forall r :: r in t.reqs ==> !t.reqs[r].Scanning?
  {
  }

  lemma BothList(scope: Scope, s: Sys, id: nat, r: nat, q: nat)
    requires scope.mode.Reusable? && s.pool == [id] && id in s.heap
    requires !s.heap[id].busy && !s.heap[id].UsedUp(scope.lifecycle, s.now) && s.tick.None?
    requires r !in s.reqs && q !in s.reqs && r != q
    ensures Next(scope, s, Scan(r, None)) == s.(reqs := s.reqs[r := Scanning([id])])
    ensures Next(scope, Next(scope, s, Scan(r, None)), Scan(q, None))
              == s.(reqs := s.reqs[r := Scanning([id])][q := Scanning([id])])
  {
    OnlyCandidate(s, scope, id);
    var one := s.(reqs := s.reqs[r := Scanning([id])]);
    assert Next(scope, s, Scan(r, None)) == one;
    OnlyCandidate(one, scope, id);
  }

  lemma ClaimCountRelease(scope: Scope, s: Sys, id: nat, r: nat)
    requires r in s.reqs && s.reqs[r] == Scanning([id]) && id in s.heap && !s.heap[id].busy && scope.mode.Reusable?
    ensures var counted := Next(scope, Next(scope, s, Cas(r)), CountRequest(r));
            && Holds(counted, r, id) && counted.heap.Keys == s.heap.Keys
            && counted.heap[id].requests == s.heap[id].requests + 1
            && Next(scope, counted, Release(r)) ==
                 s.(reqs := s.reqs - {r},
                    heap := s.heap[id := s.heap[id].(requests := s.heap[id].requests + 1, lastUsedAt := s.now)])
  {
    var claimed := Claim(s, r, id);
    assert Next(scope, s, Cas(r)) == claimed;
    var counted := Next(scope, claimed, CountRequest(r));
    assert counted.reqs == s.reqs[r := Holding(id, true)];
    assert counted.reqs - {r} == s.reqs - {r};
  }

  /** Such a compare-and-swap does occur. Listing candidates and claiming one are separate steps
      under a shared lock, and the claim checks the busy flag alone: two requests that list the last
      context together can both serve from it, one after the other, past the quota. */
  lemma ScansCanOvershootTheQuota(scope: Scope, s: Sys, id: nat, r: nat, q: nat)
    requires Inv(scope, s) && scope.mode.Reusable? && !scope.lifecycle.rotation.TimeBasedOnly?
    requires s.pool == [id] && !s.heap[id].busy && !s.heap[id].UsedUp(scope.lifecycle, s.now) && s.tick.None?
    requires s.heap[id].requests + 1 == scope.lifecycle.maxRequests
    requires r !in s.reqs && q !in s.reqs && r != q
    ensures var listed := Next(scope, Next(scope, s, Scan(r, None)), Scan(q, None));
            var first := Next(scope, Next(scope, Next(scope, listed, Cas(r)), CountRequest(r)), Release(r));
            var second := Next(scope, Next(scope, first, Cas(q)), CountRequest(q));
            id in second.heap && second.heap[id].requests == scope.lifecycle.maxRequests + 1
  {
    assert id in s.pool;
    BothList(scope, s, id, r, q);
    var listed := s.(reqs := s.reqs[r := Scanning([id])][q := Scanning([id])]);
    ClaimCountRelease(scope, listed, id, r);
    var first := Next(scope, Next(scope, Next(scope, listed, Cas(r)), CountRequest(r)), Release(r));
    ClaimCountRelease(scope, first, id, q);
  }

  lemma OnlyCandidate(s: Sys, scope: Scope, id: nat)
    requires s.pool == [id] && id in s.heap && !s.heap[id].busy && !s.heap[id].UsedUp(scope.lifecycle, s.now)
    ensures CandidateIds(s, scope, None) == [id]
  {
    var ranks := LeastUsedRanks(View(s), None, scope.lifecycle, s.now);
    assert OrderUpTo(ranks, 0) == [];
    assert InsertByRank(ranks, [], 0) == [0];
    assert Order(ranks) == [0];
  }

  /** A pool of one idle context that has served `n` requests. */
  function Served(n: nat): Sys {
    Sys(map[0 := Slot(0, false, 0, 0, n, 0, map[])], [0], 0, map[], {}, {}, None, 1, 0)
  }

  lemma ThreeSteps(scope: Scope, s: Sys, a: Step, b: Step, c: Step) returns (steps: seq<Step>)
    ensures Run(scope, s, steps) == Next(scope, Next(scope, Next(scope, s, a), b), c)
  {
    RunCons(scope, s, a, [b] + ([c] + []));
    RunCons(scope, Next(scope, s, a), b, [c] + []);
    RunCons(scope, Next(scope, Next(scope, s, a), b), c, []);
    steps := [a] + ([b] + ([c] + []));
  }

  lemma FourSteps(scope: Scope, s: Sys, a: Step, b: Step, c: Step, d: Step) returns (steps: seq<Step>)
    ensures Run(scope, s, steps) == Next(scope, Next(scope, Next(scope, Next(scope, s, a), b), c), d)
  {
    var rest := ThreeSteps(scope, Next(scope, s, a), b, c, d);
    RunCons(scope, s, a, rest);
    steps := [a] + rest;
  }

  lemma FirstServed(scope: Scope) returns (steps: seq<Step>)
    requires scope.Accepted() && scope.mode.Reusable?
    ensures Run(scope, Start(scope, 0, 0), steps) == Served(0)
  {
    var start := Start(scope, 0, 0);
    assert View(start) == [] && Order(LeastUsedRanks([], None, scope.lifecycle, 0)) == [];
    var building := Next(scope, start, Acquire(0, false, None));
    assert building == start.(pending := 1, reqs := map[0 := Building]);
    var held := Next(scope, building, Built(0, 0));
    assert held.reqs == map[0 := Holding(0, false)] && held.pool == [0];
    assert Next(scope, held, Release(0)) == Served(0);
    steps := ThreeSteps(scope, start, Acquire(0, false, None), Built(0, 0), Release(0));
  }

  lemma OneMoreServed(scope: Scope, n: nat) returns (steps: seq<Step>)
    requires scope.mode.Reusable? && !scope.lifecycle.rotation.TimeBasedOnly? && n < scope.lifecycle.maxRequests
    ensures Run(scope, Served(n), steps) == Served(n + 1)
  {
    BothList(scope, Served(n), 0, 1, 2);
    var listed := Next(scope, Served(n), Scan(1, None));
    ClaimCountRelease(scope, listed, 0, 1);
    var claimed := Next(scope, listed, Cas(1));
    var counted := Next(scope, claimed, CountRequest(1));
    assert Next(scope, counted, Release(1)) == Served(n + 1);
    steps := FourSteps(scope, Served(n), Scan(1, None), Cas(1), CountRequest(1), Release(1));
  }

  lemma {:induction false} ServedIsReached(scope: Scope, n: nat) returns (steps: seq<Step>)
    requires scope.Accepted() && scope.mode.Reusable? && !scope.lifecycle.rotation.TimeBasedOnly?
    requires n <= scope.lifecycle.maxRequests
    ensures Run(scope, Start(scope, 0, 0), steps) == Served(n)
  {
    if n == 0 {
      steps := FirstServed(scope);
    } else {
      var earlier := ServedIsReached(scope, n - 1);
      var more := OneMoreServed(scope, n - 1);
      RunAppend(scope, Start(scope, 0, 0), earlier, more);
      steps := earlier + more;
    }
  }

  /** Whatever the quota, a run from the start of the pool overshoots it. */
  lemma OvershootIsReached(scope: Scope) returns (steps: seq<Step>)
    requires scope.Accepted() && scope.mode.Reusable? && !scope.lifecycle.rotation.TimeBasedOnly?
    requires scope.lifecycle.maxRequests > 0
    ensures var s := Run(scope, Start(scope, 0, 0), steps);
            exists id :: id in s.heap && s.heap[id].requests == scope.lifecycle.maxRequests + 1
  {
    var n := scope.lifecycle.maxRequests - 1;
    var earlier := ServedIsReached(scope, n);
    var s := Served(n);
    StartIsInv(scope, 0, 0);
    RunKeepsInv(scope, Start(scope, 0, 0), earlier);
    ScansCanOvershootTheQuota(scope, s, 0, 1, 2);
    var four := FourSteps(scope, s, Scan(1, None), Scan(2, None), Cas(1), CountRequest(1));
    var counted := Run(scope, s, four);
    var three := ThreeSteps(scope, counted, Release(1), Cas(2), CountRequest(2));
    RunAppend(scope, s, four, three);
    RunAppend(scope, Start(scope, 0, 0), earlier, four + three);
    steps := earlier + (four + three);
    assert 0 in Run(scope, counted, three).heap;
  }

  // ----- balance -----

  /** How long a request waits to be selected, to be counted, and to end. */
  datatype Times = Times(idle: nat, setup: nat, serving: nat)

  function Later(s: Sys, d: nat): Sys { s.(now := s.now + d) }

  /** One request from selection to the end, taking its time, nothing else running. */
  function Serve(scope: Scope, s: Sys, r: nat, t: Times): Sys {
    var claimed := Next(scope, Later(s, t.idle), Reuse(r, None));
    var counted := Next(scope, Later(claimed, t.setup), CountRequest(r));
    Next(scope, Later(counted, t.serving), Release(r))
  }

  /** `states[k]` is the pool after `k` such requests; none finds a used-up context. */
  ghost predicate OneAtATime(scope: Scope, states: seq<Sys>, times: seq<Times>, r: nat) {
    && |states| == |times| + 1
    && (forall k :: 0 <= k < |times| ==>
          && AllServing(scope, Later(states[k], times[k].idle))
          && states[k + 1] == Serve(scope, states[k], r, times[k]))
  }

  /** Nothing runs, and nothing in the (non-empty) pool is used up. */
  ghost predicate AllServing(scope: Scope, s: Sys) {
    && s.reqs == map[] && s.tick.None? && s.pool != []
    && (forall id :: id in s.pool ==> id in s.heap && !s.heap[id].busy && !s.heap[id].UsedUp(scope.lifecycle, s.now))
  }

  ghost predicate Balanced(s: Sys) {
    forall a, b :: a in s.pool && b in s.pool && a in s.heap && b in s.heap ==>
      s.heap[a].requests <= s.heap[b].requests + 1
  }

  lemma {:induction false} SumGrowsByOne(a: seq<Slot>, b: seq<Slot>, i: nat)
    requires |a| == |b| && i < |a|
    requires forall j :: 0 <= j < |a| ==> b[j].requests == a[j].requests + (if j == i then 1 else 0)
    ensures SumRequests(b) == SumRequests(a) + 1
  {
    if i > 0 {
      SumGrowsByOne(a[1..], b[1..], i - 1);
    } else {
      SumSame(a[1..], b[1..]);
    }
  }

  lemma {:induction false} SumSame(a: seq<Slot>, b: seq<Slot>)
    requires |a| == |b| && forall j :: 0 <= j < |a| ==> b[j].requests == a[j].requests
    ensures SumRequests(b) == SumRequests(a)
  {
    if a != [] { SumSame(a[1..], b[1..]); }
  }

  /** The effect of one request: its context is busy while it lasts and one request older after. */
  lemma ServeEffect(scope: Scope, s: Sys, r: nat, t: Times, i: nat)
    requires scope.mode.Reusable? && s.reqs == map[] && s.tick.None? && i < |s.pool| && s.pool[i] in s.heap
    requires Best(LeastUsedRanks(View(s), None, scope.lifecycle, s.now + t.idle)) == Some(i)
    ensures var id, end := s.pool[i], s.now + t.idle + t.setup + t.serving;
            Serve(scope, s, r, t) ==
              s.(heap := s.heap[id := s.heap[id].(requests := s.heap[id].requests + 1, lastUsedAt := end, busy := false)],
                 now := end)
  {
    var id := s.pool[i];
    var u := Later(s, t.idle);
    assert View(u) == View(s);
    var a := Claim(u, r, id);
    assert Next(scope, u, Reuse(r, None)) == a;
    CountAndRelease(scope, Later(a, t.setup), r, id, t.serving);
  }

  lemma CountAndRelease(scope: Scope, s: Sys, r: nat, id: nat, serving: nat)
    requires scope.mode.Reusable? && s.reqs == map[r := Holding(id, false)] && id in s.heap
    ensures var counted := Next(scope, s, CountRequest(r));
            Next(scope, Later(counted, serving), Release(r)) ==
              s.(heap := s.heap[id := s.heap[id].(requests := s.heap[id].requests + 1, lastUsedAt := s.now + serving, busy := false)],
                 reqs := map[], now := s.now + serving)
  {
    var b := Next(scope, s, CountRequest(r));
    assert b.reqs == map[r := Holding(id, true)];
    assert b.reqs - {r} == map[];
  }

  lemma SomeoneServes(scope: Scope, s: Sys) returns (i: nat)
    requires AllServing(scope, s)
    ensures i < |s.pool| && Best(LeastUsedRanks(View(s), None, scope.lifecycle, s.now)) == Some(i)
    ensures forall x :: x in s.pool ==> s.heap[s.pool[i]].requests <= s.heap[x].requests
  {
    var ranks := LeastUsedRanks(View(s), None, scope.lifecycle, s.now);
    BestIsBest(ranks);
    assert s.pool[0] in s.pool && ranks[0].Some?;
    i := Best(ranks).value;
    assert IsBest(ranks, i);
    forall x | x in s.pool ensures s.heap[s.pool[i]].requests <= s.heap[x].requests {
      var j :| 0 <= j < |s.pool| && s.pool[j] == x;
      assert s.pool[i] in s.pool && ranks[j].Some?;
    }
  }

  /** `id` served one more request and ended it now; nothing else changed but the time. */
  ghost predicate ServedBy(s: Sys, t: Sys, id: nat) {
    && id in s.heap && t.now >= s.now
    && t == s.(heap := s.heap[id := s.heap[id].(requests := s.heap[id].requests + 1, lastUsedAt := t.now, busy := false)],
               now := t.now)
  }

  ghost predicate ServedByLeastUsed(s: Sys, t: Sys) {
    exists id :: id in s.pool && ServedBy(s, t, id) && LeastUsed(s, id)
  }

  ghost predicate LeastUsed(s: Sys, id: nat)
    requires id in s.heap
  {
    forall x :: x in s.pool ==> x in s.heap && s.heap[id].requests <= s.heap[x].requests
  }

  /** One request goes to a context with the fewest requests and leaves every other one alone. */
  lemma ServeUsesTheLeastUsed(scope: Scope, s: Sys, r: nat, t: Times)
    requires scope.mode.Reusable? && AllServing(scope, Later(s, t.idle))
    ensures ServedByLeastUsed(s, Serve(scope, s, r, t))
  {
    var u := Later(s, t.idle);
    var i := SomeoneServes(scope, u);
    assert View(u) == View(s);
    assert s.pool[i] in s.pool;
    ServeEffect(scope, s, r, t, i);
    assert ServedBy(s, Serve(scope, s, r, t), s.pool[i]);
  }

  lemma ServedCounts(s: Sys, t: Sys, id: nat, i: nat)
    requires Shape(s) && i < |s.pool| && s.pool[i] == id && ServedBy(s, t, id)
    ensures SumRequests(View(t)) == SumRequests(View(s)) + 1
  {
    var v, w := View(s), View(t);
    forall j | 0 <= j < |v| ensures w[j].requests == v[j].requests + (if j == i then 1 else 0) {
      assert s.pool[j] in s.pool;
      assert j != i ==> s.pool[j] != s.pool[i];
    }
    SumGrowsByOne(v, w, i);
  }

  lemma ServedStaysBalanced(s: Sys, t: Sys, id: nat)
    requires Balanced(s) && id in s.pool && ServedBy(s, t, id) && LeastUsed(s, id)
    ensures Balanced(t)
  {
    forall a, b | a in t.pool && b in t.pool && a in t.heap && b in t.heap
      ensures t.heap[a].requests <= t.heap[b].requests + 1
    {
      assert s.heap[a].requests <= s.heap[b].requests + 1;
      assert s.heap[id].requests <= s.heap[b].requests;
    }
  }

  /** The pool after some requests: the same contexts, as balanced as before, the requests counted. */
  ghost predicate StillBalanced(s: Sys, t: Sys, k: nat) {
    && Shape(t) && t.pool == s.pool && Balanced(t)
    && SumRequests(View(t)) == SumRequests(View(s)) + k
  }

  lemma OneRequestKeepsBalance(s: Sys, t: Sys)
    requires Shape(s) && Balanced(s) && ServedByLeastUsed(s, t)
    ensures StillBalanced(s, t, 1)
  {
    var id :| id in s.pool && ServedBy(s, t, id) && LeastUsed(s, id);
    var i :| 0 <= i < |s.pool| && s.pool[i] == id;
    ServedCounts(s, t, id, i);
    ServedStaysBalanced(s, t, id);
  }

  /** On a fixed pool serving one request at a time, with any waits between and within them, counts
      that start within one of each other stay within one, and every request is counted exactly
      once. */
  lemma {:induction false} TrafficStaysBalanced(scope: Scope, states: seq<Sys>, times: seq<Times>, r: nat, k: nat)
    requires OneAtATime(scope, states, times, r) && k < |states|
    requires Shape(states[0]) && scope.mode.Reusable? && Balanced(states[0])
    ensures StillBalanced(states[0], states[k], k)
  {
    if k > 0 {
      TrafficStaysBalanced(scope, states, times, r, k - 1);
      var s, t := states[k - 1], states[k];
      assert AllServing(scope, Later(s, times[k - 1].idle)) && states[k - 1 + 1] == Serve(scope, s, r, times[k - 1]);
      ServeUsesTheLeastUsed(scope, s, r, times[k - 1]);
      OneRequestKeepsBalance(s, t);
    }
  }
}
