/** One request at the coordinator: where it is sent first, and when it is sent again. */
module RetryLoop {
  import opened Wrappers
  import opened Sequences
  import opened InFlight
  import opened Routing

  const Terminating: int := 5006
  const CapacityExhausted: int := 5008

  const MaxTerminatingAttempts: nat := 3
  const MaxCapacityAttempts: nat := 2
  const MaxUnreachableAttempts: nat := 2

  /** Ten seconds, in milliseconds. */
  const MinRetryTimeRemaining: nat := 10_000

  datatype Outcome =
    | Answered(errorCode: int)
    | Unreachable        // no connection, or the call broke
    | InvalidRequest     // the worker refuses the request itself
    | Abandoned          // the client went away and the future was dropped

  datatype RetryReason = WorkerTerminating | NoSlots | WorkerUnreachable

  datatype RetryPlan = RetryPlan(reason: RetryReason, maxAttempts: nat)

  function ClassifyRetry(errorCode: int, noSession: bool): Option<RetryPlan> {
    if errorCode == Terminating then Some(RetryPlan(WorkerTerminating, MaxTerminatingAttempts))
    else if errorCode == CapacityExhausted && noSession then Some(RetryPlan(NoSlots, MaxCapacityAttempts))
    else None
  }

  function ClassifyUnreachableRetry(noSession: bool): Option<RetryPlan> {
    if noSession then Some(RetryPlan(WorkerUnreachable, MaxUnreachableAttempts)) else None
  }

  function PlanFor(outcome: Outcome, noSession: bool): Option<RetryPlan> {
    match outcome
    case Answered(errorCode) => ClassifyRetry(errorCode, noSession)
    case Unreachable => ClassifyUnreachableRetry(noSession)
    case InvalidRequest => None
    case Abandoned => None
  }

  /** What one attempt meets: its outcome, the milliseconds left after it, and the cluster as the
      retry decision then reads it. */
  datatype Round = Round(
    outcome: Outcome,
    remaining: nat,
    scope: Option<seq<Worker>>,
    healthy: set<Pod>,
    free: FreeSlotsOf,
    rotation: nat,
    startsSession: bool)       // the answer hands out a session, which keeps the slot

  function Untried(round: Round, tried: set<Pod>): seq<Worker> {
    if round.scope.None? then []
    else Filter(round.scope.value, (w: Worker) => w.podName in round.healthy && w.podName !in tried)
  }

  /** A worker that is shutting down is tried elsewhere up to twice, anything else once: a full or
      unreachable worker, and only for a request without a session. Ten seconds must be left. */
  predicate MayRetry(noSession: bool, attempt: nat, round: Round) {
    && round.remaining >= 10_000
    && ((round.outcome == Answered(5006) && attempt < 3)
        || (noSession && round.outcome in {Answered(5008), Unreachable} && attempt < 2))
  }

  /** The reason a retry is recorded with, and how many attempts it allows in all. */
  lemma PlansAre(outcome: Outcome, noSession: bool)
    ensures match PlanFor(outcome, noSession)
            case Some(plan) =>
              || (outcome == Answered(5006) && plan == RetryPlan(WorkerTerminating, 3))
              || (noSession && outcome == Answered(5008) && plan == RetryPlan(NoSlots, 2))
              || (noSession && outcome == Unreachable && plan == RetryPlan(WorkerUnreachable, 2))
            case None => outcome != Answered(5006) && (noSession ==> outcome !in {Answered(5008), Unreachable})
  {
  }

  predicate Eligible(round: Round, tried: set<Pod>, w: Worker) {
    round.scope.Some? && w in round.scope.value && w.podName in round.healthy && w.podName !in tried
  }

  /** A pod not tried yet that has more free slots than none and no fewer than any other. */
  ghost predicate GoodChoice(round: Round, tried: set<Pod>, pod: Pod) {
    exists w ::
      && Eligible(round, tried, w) && w.podName == pod && round.free(w) > 0
      && forall v :: Eligible(round, tried, v) ==> round.free(v) <= round.free(w)
  }

  ghost predicate RoomElsewhere(round: Round, tried: set<Pod>) {
    exists w :: Eligible(round, tried, w) && round.free(w) > 0
  }

  /** There is a next attempt exactly when this one's outcome allows it and there is room on a pod
      not tried yet, and then it goes to a best such pod. */
  ghost predicate Decided(noSession: bool, attempt: nat, tried: set<Pod>, round: Round, next: Option<Pod>) {
    && (next.Some? <==> MayRetry(noSession, attempt, round) && RoomElsewhere(round, tried))
    && (next.Some? ==> GoodChoice(round, tried, next.value))
  }

  /** The decision at the end of an attempt. */
  method ChooseRetry(noSession: bool, attempt: nat, tried: set<Pod>, round: Round) returns (next: Option<Pod>)
    ensures Decided(noSession, attempt, tried, round, next)
  {
    var plan := PlanFor(round.outcome, noSession);
    if plan.None? { return None; }
    if round.remaining < MinRetryTimeRemaining { return None; }
    if attempt >= plan.value.maxAttempts { return None; }
    if round.scope.None? { return None; }
    var candidates := Untried(round, tried);
    FilterHolds(round.scope.value, (w: Worker) => w.podName in round.healthy && w.podName !in tried);
    assert forall w :: w in candidates <==> Eligible(round, tried, w);
    var best := PickMostFree(candidates, round.free, round.rotation);
    PickIsAMaximum(candidates, round.free, round.rotation);
    if best.None? { return None; }
    var (worker, freeSlots) := best.value;
    assert Eligible(round, tried, worker);
    if freeSlots == 0 { return None; }
    return Some(worker.podName);
  }

  function TriedIn(attempts: seq<Pod>): set<Pod> { set p | p in attempts }

  /** The end of an attempt's count. */
  function Ended(r: nat, keepsSlot: bool): Event { if keepsSlot then CompleteKeepingSlot(r) else Complete(r) }

  predicate IsEnd(e: Event, r: nat) { e == Complete(r) || e == CompleteKeepingSlot(r) }

  /** One count for the length of each attempt, which may end by leaving a session behind. */
  ghost predicate Bracketed(r: nat, attempts: seq<Pod>, events: seq<Event>) {
    && |events| == 2 * |attempts|
    && forall k :: 0 <= k < |attempts| ==> events[2 * k] == Dispatch(r, attempts[k]) && IsEnd(events[2 * k + 1], r)
  }

  lemma BracketGrows(r: nat, attempts: seq<Pod>, events: seq<Event>, pod: Pod, end: Event)
    requires Bracketed(r, attempts, events) && IsEnd(end, r)
    ensures Bracketed(r, attempts + [pod], events + [Dispatch(r, pod), end])
  {
    var longer, more := attempts + [pod], events + [Dispatch(r, pod), end];
    forall k | 0 <= k < |longer| ensures more[2 * k] == Dispatch(r, longer[k]) && IsEnd(more[2 * k + 1], r) {
      if k < |attempts| { assert more[2 * k] == events[2 * k] && more[2 * k + 1] == events[2 * k + 1]; }
    }
  }

  ghost predicate NoZeroEntries(m: Counts) { forall pod :: pod in m ==> m[pod] > 0 }

  lemma StartThenFinish(m: Counts, pod: Pod)
    requires NoZeroEntries(m)
    ensures Finished(Started(m, pod), pod) == m
  {
  }

  /** The step after these attempts is as it should be. `world(k)` is what attempt `k` meets, counted
      from 0. */
  ghost predicate Justified(noSession: bool, world: nat -> Round, attempts: seq<Pod>, next: Option<Pod>) {
    attempts != [] && Decided(noSession, |attempts|, TriedIn(attempts), world(|attempts| - 1), next)
  }

  ghost predicate Chain(noSession: bool, world: nat -> Round, attempts: seq<Pod>) {
    forall k :: 0 < k < |attempts| ==> Justified(noSession, world, attempts[..k], Some(attempts[k]))
  }

  lemma ChainGrows(noSession: bool, world: nat -> Round, attempts: seq<Pod>, next: Pod)
    requires Chain(noSession, world, attempts) && Distinct(attempts)
    requires attempts != [] ==> Justified(noSession, world, attempts, Some(next))
    ensures Chain(noSession, world, attempts + [next]) && Distinct(attempts + [next])
    ensures |attempts| < MaxTerminatingAttempts
  {
    var longer := attempts + [next];
    forall k | 0 < k < |longer| ensures Justified(noSession, world, longer[..k], Some(longer[k])) {
      assert longer[..k] == attempts[..k];
      if k == |attempts| { assert attempts[..k] == attempts; }
    }
    if attempts != [] { assert next !in TriedIn(attempts); }
  }

  lemma TriedGrows(attempts: seq<Pod>, next: Pod)
    ensures (attempts + [next])[..|attempts|] == attempts && TriedIn(attempts + [next]) == TriedIn(attempts) + {next}
  {
  }

  /** One attempt, and the decision after it. It is counted against its pod until it is over, however
      it ends. */
  method Attempt(tracker: InFlightTracker, r: nat, pod: Pod, noSession: bool, attempt: nat, tried: set<Pod>, round: Round)
    returns (next: Option<Pod>, events: seq<Event>)
    requires NoZeroEntries(tracker.byPod)
    modifies tracker
    ensures tracker.byPod == old(tracker.byPod)
    ensures events == if noSession then [Dispatch(r, pod), Ended(r, round.startsSession)] else []
    ensures Decided(noSession, attempt, tried, round, next)
  {
    StartThenFinish(tracker.byPod, pod);
    events := [];
    if noSession {
      tracker.Start(pod);
      events := events + [Dispatch(r, pod)];
    }
    next := ChooseRetry(noSession, attempt, tried, round);
    if noSession {
      tracker.Finish(pod);
      events := events + [Ended(r, round.startsSession)];
    }
  }

  /** The attempts of one request. */
  method ServeAttempts(tracker: InFlightTracker, r: nat, first: Pod, noSession: bool, world: nat -> Round)
    returns (outcome: Outcome, attempts: seq<Pod>, log: seq<Event>)
    requires NoZeroEntries(tracker.byPod)
    modifies tracker
    ensures 1 <= |attempts| <= 3 && attempts[0] == first && Distinct(attempts)
    ensures outcome == world(|attempts| - 1).outcome
    ensures Chain(noSession, world, attempts) && Justified(noSession, world, attempts, None)
    ensures tracker.byPod == old(tracker.byPod)
    ensures if noSession then Bracketed(r, attempts, log) else log == []
  {
    var attempt := 0;
    var excluded: set<Pod> := {};
    var lastWorker := first;
    attempts, log := [], [];
    while true
      invariant attempt == |attempts| && Distinct(attempts) && Chain(noSession, world, attempts)
      invariant excluded == TriedIn(attempts)
      invariant first == if attempt > 0 then attempts[0] else lastWorker
      invariant attempt > 0 ==> Justified(noSession, world, attempts, Some(lastWorker))
      invariant attempt <= MaxTerminatingAttempts
      invariant tracker.byPod == old(tracker.byPod)
      invariant if noSession then Bracketed(r, attempts, log) else log == []
      decreases MaxTerminatingAttempts - attempt
    {
      ChainGrows(noSession, world, attempts, lastWorker);
      TriedGrows(attempts, lastWorker);
      if noSession { BracketGrows(r, attempts, log, lastWorker, Ended(r, world(attempt).startsSession)); }
      attempt := attempt + 1;
      attempts := attempts + [lastWorker];
      excluded := excluded + {lastWorker};
      outcome := world(attempt - 1).outcome;
      var next, events := Attempt(tracker, r, lastWorker, noSession, attempt, excluded, world(attempt - 1));
      log := log + events;
      if next.None? { return; }
      lastWorker := next.value;
    }
  }

  ghost predicate HonestRetry(noSession: bool, world: nat -> Round, k: nat)
    requires k > 0
  {
    var before := world(k - 1);
    && k < 3 && before.remaining >= 10_000
    && before.outcome in {Answered(5006), Answered(5008), Unreachable}
    && (!noSession || k == 2 ==> before.outcome == Answered(5006))
  }

  /** Along the whole chain: ten seconds are left at every retry, a session is sent again only because
      its worker is shutting down, and a third attempt is made for no other reason either. */
  lemma RetriesAreHonest(noSession: bool, world: nat -> Round, attempts: seq<Pod>)
    requires Chain(noSession, world, attempts)
    ensures forall k: nat :: 0 < k < |attempts| ==> HonestRetry(noSession, world, k)
  {
    forall k: nat | 0 < k < |attempts| ensures HonestRetry(noSession, world, k) {
      assert Justified(noSession, world, attempts[..k], Some(attempts[k]));
      assert |attempts[..k]| == k;
    }
  }

  /** And the chain stops only where it must: at the end the outcome is one no other pod would change,
      or its attempts or the time are used up, or no healthy pod that is left has a free slot. */
  lemma NoRetryIsMissed(noSession: bool, world: nat -> Round, attempts: seq<Pod>)
    requires Justified(noSession, world, attempts, None)
    ensures var last := world(|attempts| - 1);
            || last.remaining < 10_000
            || last.outcome !in {Answered(5006), Answered(5008), Unreachable}
            || (!noSession && last.outcome != Answered(5006))
            || |attempts| >= (if last.outcome == Answered(5006) then 3 else 2)
            || last.scope.None?
            || forall w :: w in last.scope.value && w.podName in last.healthy && w.podName !in attempts ==> last.free(w) == 0
  {
    var last := world(|attempts| - 1);
    if last.scope.Some? {
      forall w | w in last.scope.value && w.podName in last.healthy && w.podName !in attempts
        ensures RoomElsewhere(last, TriedIn(attempts)) || last.free(w) == 0
      {
        assert Eligible(last, TriedIn(attempts), w);
      }
    }
  }

  // ----- beside other requests -----

  function Concerns(e: Event, r: nat): bool {
    match e
    case Dispatch(q, _) => q == r
    case Complete(q) => q == r
    case CompleteKeepingSlot(q) => q == r
    case Hold(_, _) => false
    case Snapshot(_) => false
  }

  /** The events of request `r` in a trace of everyone's. */
  function Own(events: seq<Event>, r: nat): seq<Event> { Filter(events, e => Concerns(e, r)) }

  lemma {:induction false} RunAppend(f: Fleet, a: seq<Event>, b: seq<Event>)
    ensures Run(f, a + b) == Run(Run(f, a), b)
    decreases |a|
  {
    if a == [] {
      assert a + b == b;
    } else {
      assert (a + b)[1..] == a[1..] + b;
      RunAppend(Next(f, a[0]), a[1..], b);
    }
  }

  /** What holds of a request after the first `done` of its own events. */
  ghost predicate CountedRight(f: Fleet, r: nat, attempts: seq<Pod>, done: nat) {
    && done <= 2 * |attempts|
    && (done % 2 == 0 ==> r !in f.live)
    && (done % 2 == 1 ==> r in f.live && f.live[r] == attempts[done / 2])
  }

  lemma OwnStep(f: Fleet, e: Event, r: nat, attempts: seq<Pod>, all: seq<Event>, done: nat)
    requires CountedRight(f, r, attempts, done) && Bracketed(r, attempts, all)
    requires Concerns(e, r) ==> done < |all| && e == all[done]
    ensures CountedRight(Next(f, e), r, attempts, if Concerns(e, r) then done + 1 else done)
  {
    if Concerns(e, r) {
      var k := done / 2;
      assert done == 2 * k || done == 2 * k + 1;
    }
  }

  /** However the other requests interleave, a request counts against its current pod alone for the
      length of an attempt, and against none before, between and after. `all` is what it tells the
      tracker in the end, `done` how much of that it has told so far. */
  lemma {:induction false} OneCountAtATime(capacity: Counts, events: seq<Event>, r: nat, attempts: seq<Pod>, all: seq<Event>, done: nat)
    requires Bracketed(r, attempts, all) && done <= |all| && Own(events, r) == all[..done]
    ensures CountedRight(Run(Idle(capacity), events), r, attempts, done)
    decreases |events|
  {
    if events == [] { return; }
    var earlier, last := events[..|events| - 1], events[|events| - 1];
    assert events == earlier + [last];
    RunAppend(Idle(capacity), earlier, [last]);
    var f := Run(Idle(capacity), earlier);
    assert Run(f, [last]) == Next(f, last);
    if Concerns(last, r) {
      assert Own(earlier, r) == Own(events, r)[..done - 1] == all[..done - 1];
      OneCountAtATime(capacity, earlier, r, attempts, all, done - 1);
      assert last == Own(events, r)[done - 1] == all[done - 1];
      OwnStep(f, last, r, attempts, all, done - 1);
    } else {
      OneCountAtATime(capacity, earlier, r, attempts, all, done);
      OwnStep(f, last, r, attempts, all, done);
    }
  }

  /** So at the end nothing of it is left in the tracker, which still counts the others exactly. */
  lemma EveryExitRestoresTheCounts(capacity: Counts, events: seq<Event>, r: nat, attempts: seq<Pod>)
    requires Bracketed(r, attempts, Own(events, r))
    ensures var f := Run(Idle(capacity), events);
            r !in f.live && forall pod :: CurrentOf(f.byPod, pod) == |RunningOn(f.live - {r}, pod)|
  {
    var all := Own(events, r);
    assert all[..|all|] == all;
    OneCountAtATime(capacity, events, r, attempts, all, |all|);
    IdleIsConsistent(capacity);
    RunStaysConsistent(Idle(capacity), events);
    var f := Run(Idle(capacity), events);
    assert f.live - {r} == f.live;
  }

  // ----- the first attempt -----

  datatype Route = To(pod: Pod) | NoWorkers | NoFreeSlots

  /** A request without a session. `asked` is what the picked worker itself answers when it looks
      full. */
  function RouteRequest(workers: seq<Worker>, healthy: set<Pod>, free: FreeSlotsOf, rotation: nat, asked: Option<nat>): Route {
    if workers == [] then NoWorkers
    else
      match SelectBestWorker(workers, healthy, free, rotation)
      case None => NoWorkers
      case Some(s) =>
        if s.freeSlots == 0 && (asked.None? || asked.value == 0) then NoFreeSlots else To(s.worker.podName)
  }

  /** Refused exactly when no eligible pod shows a free slot and the worker asked confirms it; sent
      to a pod with the most. */
  lemma RouteIsSound(workers: seq<Worker>, healthy: set<Pod>, free: FreeSlotsOf, rotation: nat, asked: Option<nat>)
    requires workers != []
    ensures var anyHealthy := exists w :: w in workers && w.podName in healthy;
            var route := RouteRequest(workers, healthy, free, rotation, asked);
            && !route.NoWorkers?
            && (route.NoFreeSlots? <==>
                  && (asked.None? || asked.value == 0)
                  && forall w :: w in workers && (anyHealthy ==> w.podName in healthy) ==> free(w) == 0)
            && (route.To? ==> exists w ::
                  && w in workers && w.podName == route.pod && (anyHealthy ==> w.podName in healthy)
                  && (free(w) > 0 || (asked.Some? && asked.value > 0))
                  && forall v :: v in workers && (anyHealthy ==> v.podName in healthy) ==> free(v) <= free(w))
  {
    SelectionIsSound(workers, healthy, free, rotation);
    var s := SelectBestWorker(workers, healthy, free, rotation).value;
    assert s.worker in workers;
  }
}
