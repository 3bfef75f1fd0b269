/** Requests the coordinator has dispatched and not yet seen answered, and the correction they make
    to the slot counts the workers reported at the last discovery round. */
module InFlight {

  type Pod = string
  type Counts = map<Pod, nat>

  datatype Worker = Worker(podName: Pod, availableSlots: nat, inFlightAtSnapshot: nat)

  function CurrentOf(m: Counts, pod: Pod): nat {
    if pod in m then m[pod] else 0
  }

  /** available + baseline − now, in unsigned arithmetic. */
  function EffectiveFreeSlots(worker: Worker, inFlightNow: nat): nat {
    var total := worker.availableSlots + worker.inFlightAtSnapshot;
    if total >= inFlightNow then total - inFlightNow else 0
  }

  function Started(m: Counts, pod: Pod): Counts {
    m[pod := CurrentOf(m, pod) + 1]
  }

  /** An entry is only worth keeping while it is not zero. */
  function Finished(m: Counts, pod: Pod): Counts {
    if pod !in m then m
    else
      var count := if m[pod] > 0 then m[pod] - 1 else 0;
      if count == 0 then m - {pod} else m[pod := count]
  }

  class InFlightTracker {
    var byPod: Counts

    constructor ()
      ensures byPod == map[]
    {
      byPod := map[];
    }

    method Start(pod: Pod)
      modifies this
      ensures byPod == Started(old(byPod), pod)
    {
      if pod !in byPod { byPod := byPod[pod := 0]; }
      byPod := byPod[pod := byPod[pod] + 1];
    }

    method Finish(pod: Pod)
      modifies this
      ensures byPod == Finished(old(byPod), pod)
    {
      if pod in byPod {
        byPod := byPod[pod := if byPod[pod] > 0 then byPod[pod] - 1 else 0];
        if byPod[pod] == 0 { byPod := byPod - {pod}; }
      }
    }

    method FreeSlots(worker: Worker) returns (free: nat)
      ensures free == EffectiveFreeSlots(worker, CurrentOf(byPod, worker.podName))
    {
      var now := if worker.podName in byPod then byPod[worker.podName] else 0;
      free := 0;
      if worker.availableSlots + worker.inFlightAtSnapshot >= now {
        free := worker.availableSlots + worker.inFlightAtSnapshot - now;
      }
    }
  }

  // ----- the fleet over time -----

  datatype Fleet = Fleet(
    capacity: Counts,          // slots of each pod
    held: Counts,              // slots held by anything but in-flight requests
    heldAtSnapshot: Counts,
    overAtSnapshot: Counts,    // requests beyond the pod's capacity, which its stats cannot show
    live: map<nat, Pod>,       // in-flight requests: each counts against one pod at a time
    byPod: Counts,             // the tracker
    routable: map<Pod, Worker>)

  datatype Event =
    | Dispatch(r: nat, pod: Pod)
    | Complete(r: nat)                 // answered, failed, or its future dropped
    | CompleteKeepingSlot(r: nat)      // it started a session, which keeps the slot
    | Hold(pod: Pod, slots: nat)       // other holdings change
    | Snapshot(pod: Pod)               // stats arrive and are stored with the count of that moment

  function RunningOn(live: map<nat, Pod>, pod: Pod): set<nat> {
    set r | r in live && live[r] == pod
  }

  /** The truth: negative when a pod was sent more than it can hold. */
  function RealFree(f: Fleet, pod: Pod): int {
    CurrentOf(f.capacity, pod) - CurrentOf(f.held, pod) - |RunningOn(f.live, pod)|
  }

  function FreeSlots(f: Fleet, pod: Pod): nat
    requires pod in f.routable
  {
    EffectiveFreeSlots(f.routable[pod], CurrentOf(f.byPod, pod))
  }

  function Positive(n: int): nat { if n >= 0 then n else 0 }

  /** How far the last snapshot's sum has moved from the slots requests can have: by what other
      holdings have grown since, and by what the pod had been overfilled then. */
  function Drift(f: Fleet, pod: Pod): int {
    CurrentOf(f.held, pod) - CurrentOf(f.heldAtSnapshot, pod) + CurrentOf(f.overAtSnapshot, pod)
  }

  function Next(f: Fleet, e: Event): Fleet {
    match e
    case Dispatch(r, pod) =>
      if r in f.live then f else f.(live := f.live[r := pod], byPod := Started(f.byPod, pod))
    case Complete(r) =>
      if r in f.live then f.(live := f.live - {r}, byPod := Finished(f.byPod, f.live[r])) else f
    case CompleteKeepingSlot(r) =>
      if r in f.live
      then f.(live := f.live - {r}, byPod := Finished(f.byPod, f.live[r]), held := Started(f.held, f.live[r]))
      else f
    case Hold(pod, slots) => f.(held := f.held[pod := slots])
    case Snapshot(pod) =>
      f.(routable := f.routable[pod := Worker(pod, Positive(RealFree(f, pod)), CurrentOf(f.byPod, pod))],
         heldAtSnapshot := f.heldAtSnapshot[pod := CurrentOf(f.held, pod)],
         overAtSnapshot := f.overAtSnapshot[pod := Positive(-RealFree(f, pod))])
  }

  function Run(f: Fleet, events: seq<Event>): Fleet
    decreases |events|
  {
    if events == [] then f else Run(Next(f, events[0]), events[1..])
  }

  function Idle(capacity: Counts): Fleet {
    Fleet(capacity, map[], map[], map[], map[], map[], map[])
  }

  // ----- the tracker is exact -----

  ghost predicate Exact(f: Fleet) {
    && (forall pod :: CurrentOf(f.byPod, pod) == |RunningOn(f.live, pod)|)
    && (forall pod :: pod in f.byPod ==> f.byPod[pod] > 0)
  }

  /** A snapshot's two numbers together are the slots nothing else held at that moment, and what the
      pod was overfilled by, since its own figure stops at zero. */
  ghost predicate SnapshotsAddUp(f: Fleet) {
    forall pod :: pod in f.routable ==>
      f.routable[pod].availableSlots + f.routable[pod].inFlightAtSnapshot
        == CurrentOf(f.capacity, pod) - CurrentOf(f.heldAtSnapshot, pod) + CurrentOf(f.overAtSnapshot, pod)
  }

  ghost predicate Consistent(f: Fleet) { Exact(f) && SnapshotsAddUp(f) }

  lemma DispatchCounts(live: map<nat, Pod>, r: nat, pod: Pod, other: Pod)
    requires r !in live
    ensures |RunningOn(live[r := pod], other)| == |RunningOn(live, other)| + (if other == pod then 1 else 0)
  {
    assert RunningOn(live[r := pod], other) == RunningOn(live, other) + (if other == pod then {r} else {});
  }

  lemma CompleteCounts(live: map<nat, Pod>, r: nat, other: Pod)
    requires r in live
    ensures |RunningOn(live - {r}, other)| == |RunningOn(live, other)| - (if other == live[r] then 1 else 0)
  {
    assert RunningOn(live - {r}, other) == RunningOn(live, other) - (if other == live[r] then {r} else {});
  }

  lemma StepStaysConsistent(f: Fleet, e: Event)
    requires Consistent(f)
    ensures Consistent(Next(f, e))
  {
    var g := Next(f, e);
    match e
    case Dispatch(r, pod) =>
      if r !in f.live {
        forall other ensures CurrentOf(g.byPod, other) == |RunningOn(g.live, other)| {
          DispatchCounts(f.live, r, pod, other);
        }
      }
    case Complete(r) =>
      if r in f.live { CompletionStaysExact(f, r); }
    case CompleteKeepingSlot(r) =>
      if r in f.live { CompletionStaysExact(f, r); }
    case Hold(_, _) =>
    case Snapshot(pod) =>
      assert CurrentOf(f.byPod, pod) == |RunningOn(f.live, pod)|;
  }

  lemma CompletionStaysExact(f: Fleet, r: nat)
    requires Exact(f) && r in f.live
    ensures Exact(f.(live := f.live - {r}, byPod := Finished(f.byPod, f.live[r])))
  {
    var g := f.(live := f.live - {r}, byPod := Finished(f.byPod, f.live[r]));
    assert r in RunningOn(f.live, f.live[r]);
    assert CurrentOf(f.byPod, f.live[r]) > 0;
    forall other ensures CurrentOf(g.byPod, other) == |RunningOn(g.live, other)| {
      CompleteCounts(f.live, r, other);
    }
  }

  lemma {:induction false} RunStaysConsistent(f: Fleet, events: seq<Event>)
    requires Consistent(f)
    ensures Consistent(Run(f, events))
    decreases |events|
  {
    if events != [] {
      StepStaysConsistent(f, events[0]);
      RunStaysConsistent(Next(f, events[0]), events[1..]);
    }
  }

  lemma IdleIsConsistent(capacity: Counts)
    ensures Consistent(Idle(capacity))
  {
    forall pod ensures RunningOn(Idle(capacity).live, pod) == {} {
    }
  }

  /** Nothing leaks: when the last request is gone, so is the last entry. */
  lemma NoRequestsNoEntries(f: Fleet)
    requires Exact(f) && f.live == map[]
    ensures f.byPod == map[]
  {
    forall pod ensures pod !in f.byPod {
      assert RunningOn(f.live, pod) == {};
      assert CurrentOf(f.byPod, pod) == 0;
    }
  }

  // ----- the correction refines the truth -----

  /** After any trace the corrected number is the real one, off by exactly the drift. */
  lemma CorrectionIsTruthPlusDrift(capacity: Counts, events: seq<Event>, pod: Pod)
    requires pod in Run(Idle(capacity), events).routable
    ensures var f := Run(Idle(capacity), events);
            FreeSlots(f, pod) == Positive(RealFree(f, pod) + Drift(f, pod))
  {
    IdleIsConsistent(capacity);
    RunStaysConsistent(Idle(capacity), events);
    var f := Run(Idle(capacity), events);
    assert CurrentOf(f.byPod, pod) == |RunningOn(f.live, pod)|;
  }

  /** So it is the real number exactly when there is no drift, or the pod is full and the drift does
      not make up for it. */
  lemma CorrectionIsExactIff(capacity: Counts, events: seq<Event>, pod: Pod)
    requires pod in Run(Idle(capacity), events).routable
    ensures var f := Run(Idle(capacity), events);
            FreeSlots(f, pod) == Positive(RealFree(f, pod)) <==>
              Drift(f, pod) == 0 || (RealFree(f, pod) <= 0 && RealFree(f, pod) + Drift(f, pod) <= 0)
  {
    CorrectionIsTruthPlusDrift(capacity, events, pod);
  }

  /** The coordinator sees its own requests at once, and them alone: a dispatch takes a slot from both the
      real and the corrected number and its end gives it back, while what else the pod holds moves the
      real number only, until the next snapshot. */
  lemma OwnRequestsAreSeenAtOnce(f: Fleet, r: nat, pod: Pod, slots: nat)
    requires Consistent(f) && r !in f.live && pod in f.routable
    ensures var g := Next(f, Dispatch(r, pod));
            && RealFree(g, pod) == RealFree(f, pod) - 1 && FreeSlots(g, pod) == Positive(FreeSlots(f, pod) - 1)
            && RealFree(Next(g, Complete(r)), pod) == RealFree(f, pod)
            && FreeSlots(Next(g, Complete(r)), pod) == FreeSlots(f, pod)
    ensures var h := Next(f, Hold(pod, slots));
            && RealFree(h, pod) == RealFree(f, pod) + CurrentOf(f.held, pod) - slots && FreeSlots(h, pod) == FreeSlots(f, pod)
  {
    var g := Next(f, Dispatch(r, pod));
    StepStaysConsistent(f, Dispatch(r, pod));
    StepStaysConsistent(g, Complete(r));
    DispatchCounts(f.live, r, pod, pod);
    assert g.live - {r} == f.live;
    var k := Next(g, Complete(r));
    assert CurrentOf(k.byPod, pod) == |RunningOn(k.live, pod)| && CurrentOf(f.byPod, pod) == |RunningOn(f.live, pod)|;
    assert CurrentOf(g.byPod, pod) == |RunningOn(g.live, pod)|;
  }

  /** Not in every session mode: a request that starts a session returns its count but not its
      slot, so until the next snapshot the pod looks one slot freer than it is. */
  lemma StartedSessionsOverstate(capacity: Counts, events: seq<Event>, r: nat)
    requires var f := Run(Idle(capacity), events);
             r in f.live && f.live[r] in f.routable && RealFree(f, f.live[r]) >= 0 && Drift(f, f.live[r]) == 0
    ensures var f := Run(Idle(capacity), events);
            var pod := f.live[r];
            var g := Next(f, CompleteKeepingSlot(r));
            RealFree(g, pod) == RealFree(f, pod) && FreeSlots(g, pod) == RealFree(g, pod) + 1
  {
    var f := Run(Idle(capacity), events);
    IdleIsConsistent(capacity);
    RunStaysConsistent(Idle(capacity), events);
    StepStaysConsistent(f, CompleteKeepingSlot(r));
    CompleteCounts(f.live, r, f.live[r]);
    var g := Next(f, CompleteKeepingSlot(r));
    assert CurrentOf(g.byPod, f.live[r]) == |RunningOn(g.live, f.live[r])|;
  }

  /** Nor after that: the pod is sent one request too many, its stats say 0 where the truth is -1, and
      when that request is answered the number is one too high once more. Nothing else was held or
      released since the snapshot. */
  lemma SnapshotHidesTheOverfill(pod: Pod)
    ensures var events := [Snapshot(pod), Dispatch(1, pod), CompleteKeepingSlot(1), Dispatch(2, pod), Snapshot(pod), Complete(2)];
            var f := Run(Idle(map[pod := 1]), events);
            && pod in f.routable && RealFree(f, pod) == 0 && FreeSlots(f, pod) == 1
            && CurrentOf(f.held, pod) == CurrentOf(f.heldAtSnapshot, pod)
  {
    var idle := Idle(map[pod := 1]);
    assert RunningOn(map[], pod) == {} && RunningOn(map[1 := pod], pod) == {1} && RunningOn(map[2 := pod], pod) == {2};
    var a := Next(idle, Snapshot(pod));
    assert a == idle.(routable := map[pod := Worker(pod, 1, 0)], heldAtSnapshot := map[pod := 0], overAtSnapshot := map[pod := 0]);
    var b := Next(a, Dispatch(1, pod));
    assert b == a.(live := map[1 := pod], byPod := map[pod := 1]);
    var c := Next(b, CompleteKeepingSlot(1));
    assert c.live == map[] && c.byPod == map[] && c.held == map[pod := 1];
    assert FreeSlots(c, pod) == 1;
    var d := Next(c, Dispatch(2, pod));
    assert d == c.(live := map[2 := pod], byPod := map[pod := 1]);
    assert RealFree(d, pod) == -1;
    var e := Next(d, Snapshot(pod));
    assert e.routable[pod] == Worker(pod, 0, 1) && e.live == map[2 := pod] && e.byPod == map[pod := 1];
    var f := Next(e, Complete(2));
    assert f.live == map[] && f.byPod == map[];
    SixSteps(idle, Snapshot(pod), Dispatch(1, pod), CompleteKeepingSlot(1), Dispatch(2, pod), Snapshot(pod), Complete(2));
  }

  lemma SixSteps(s: Fleet, a: Event, b: Event, c: Event, d: Event, e: Event, g: Event)
    ensures Run(s, [a, b, c, d, e, g]) == Next(Next(Next(Next(Next(Next(s, a), b), c), d), e), g)
  {
    assert [a, b, c, d, e, g][1..] == [b, c, d, e, g] && [b, c, d, e, g][1..] == [c, d, e, g];
    ThreeSteps(Next(Next(Next(s, a), b), c), d, e, g);
    assert [c, d, e, g][1..] == [d, e, g];
    assert Run(Next(Next(s, a), b), [c, d, e, g]) == Run(Next(Next(Next(s, a), b), c), [d, e, g]);
    assert Run(Next(s, a), [b, c, d, e, g]) == Run(Next(Next(s, a), b), [c, d, e, g]);
  }

  lemma ThreeSteps(s: Fleet, a: Event, b: Event, c: Event)
    ensures Run(s, [a, b, c]) == Next(Next(Next(s, a), b), c)
  {
    assert [a, b, c][1..] == [b, c] && [b, c][1..] == [c] && [c][1..] == [];
    assert Run(Next(Next(s, a), b), [c]) == Next(Next(Next(s, a), b), c);
    assert Run(Next(s, a), [b, c]) == Run(Next(Next(s, a), b), [c]);
  }

  // ----- dispatching on it never overfills -----

  /** Requests go only to a routable pod with a corrected free slot, or to one that was asked and has
      one, sessions hold their slots as
      of the snapshot, and other holdings change only where a snapshot follows at once. */
  ghost predicate Careful(f: Fleet, events: seq<Event>)
    decreases |events|
  {
    events == [] ||
    (&& (match events[0]
         case Dispatch(r, pod) => r !in f.live && ((pod in f.routable && FreeSlots(f, pod) > 0) || RealFree(f, pod) > 0)
         case Complete(_) => true
         case CompleteKeepingSlot(_) => false
         case Hold(pod, slots) =>
           && slots + |RunningOn(f.live, pod)| <= CurrentOf(f.capacity, pod)
           && |events| > 1 && events[1] == Snapshot(pod)
         case Snapshot(_) => true)
     && Careful(Next(f, events[0]), events[1..]))
  }

  /** Every pod is within its capacity and every snapshot is still good. */
  ghost predicate WellFilled(f: Fleet, except: set<Pod>) {
    && (forall pod :: RealFree(f, pod) >= 0)
    && (forall pod :: pod in f.routable && pod !in except ==>
          CurrentOf(f.held, pod) == CurrentOf(f.heldAtSnapshot, pod))
    && (forall pod :: CurrentOf(f.overAtSnapshot, pod) == 0)
  }

  lemma FreeMeansRoom(f: Fleet, pod: Pod, except: set<Pod>)
    requires Consistent(f) && WellFilled(f, except) && pod in f.routable && pod !in except && FreeSlots(f, pod) > 0
    ensures RealFree(f, pod) > 0
  {
    assert CurrentOf(f.byPod, pod) == |RunningOn(f.live, pod)| && CurrentOf(f.overAtSnapshot, pod) == 0;
  }

  lemma CarefulStep(f: Fleet, e: Event, except: set<Pod>)
    requires Consistent(f) && WellFilled(f, except)
    requires !e.CompleteKeepingSlot?
    requires e.Dispatch? ==>
               e.r !in f.live && ((e.pod in f.routable && e.pod !in except && FreeSlots(f, e.pod) > 0) || RealFree(f, e.pod) > 0)
    requires e.Hold? ==> e.slots + |RunningOn(f.live, e.pod)| <= CurrentOf(f.capacity, e.pod)
    ensures Consistent(Next(f, e))
    ensures WellFilled(Next(f, e),
                       if e.Hold? then except + {e.pod} else if e.Snapshot? then except - {e.pod} else except)
  {
    StepStaysConsistent(f, e);
    var g := Next(f, e);
    if e.Dispatch? && RealFree(f, e.pod) <= 0 { FreeMeansRoom(f, e.pod, except); }
    forall pod ensures RealFree(g, pod) >= 0 {
      StepMovesRealFree(f, e, pod);
    }
    forall pod ensures CurrentOf(g.overAtSnapshot, pod) == 0 {
      assert RealFree(f, pod) >= 0 && CurrentOf(f.overAtSnapshot, pod) == 0;
    }
  }

  lemma StepMovesRealFree(f: Fleet, e: Event, pod: Pod)
    requires !e.CompleteKeepingSlot? && RealFree(f, pod) >= 0
    requires e.Dispatch? ==> e.r !in f.live && RealFree(f, e.pod) > 0
    requires e.Hold? ==> e.slots + |RunningOn(f.live, e.pod)| <= CurrentOf(f.capacity, e.pod)
    ensures RealFree(Next(f, e), pod) >= 0
  {
    match e
    case Dispatch(r, to) => DispatchCounts(f.live, r, to, pod);
    case Complete(r) => if r in f.live { CompleteCounts(f.live, r, pod); }
    case _ =>
  }

  lemma PrefixOfRest(events: seq<Event>, upTo: nat)
    requires 0 < upTo <= |events|
    ensures events[..upTo][0] == events[0] && events[..upTo][1..] == events[1..][..upTo - 1]
  {
  }

  /** Between a change of other holdings and its snapshot one pod's number is stale, and the snapshot
      comes next. */
  ghost predicate Excused(except: set<Pod>, events: seq<Event>) {
    except == {} || (exists pod :: except == {pod} && events != [] && events[0] == Snapshot(pod))
  }

  lemma CarefulGoesOn(f: Fleet, events: seq<Event>, except: set<Pod>) returns (left: set<Pod>)
    requires Consistent(f) && WellFilled(f, except) && Careful(f, events) && Excused(except, events) && events != []
    ensures Consistent(Next(f, events[0])) && WellFilled(Next(f, events[0]), left)
    ensures Careful(Next(f, events[0]), events[1..]) && Excused(left, events[1..])
  {
    var e := events[0];
    CarefulStep(f, e, except);
    left := if e.Hold? then except + {e.pod} else if e.Snapshot? then except - {e.pod} else except;
    if e.Hold? {
      assert left == {e.pod} && events[1..][0] == Snapshot(e.pod);
    } else {
      assert left == {};
    }
  }

  lemma {:induction false} NeverOverfills(f: Fleet, events: seq<Event>, except: set<Pod>, upTo: nat, pod: Pod)
    requires Consistent(f) && WellFilled(f, except) && Careful(f, events) && Excused(except, events)
    requires upTo <= |events|
    ensures RealFree(Run(f, events[..upTo]), pod) >= 0
    decreases |events|
  {
    if upTo > 0 {
      PrefixOfRest(events, upTo);
      var left := CarefulGoesOn(f, events, except);
      NeverOverfills(Next(f, events[0]), events[1..], left, upTo - 1, pod);
    } else {
      assert events[..0] == [] && RealFree(f, pod) >= 0;
    }
  }

  /** In any run that dispatches on `free_slots > 0`, or on the pod's own word, no pod is ever sent more than it can hold. */
  lemma NoPodIsEverOverfilled(capacity: Counts, events: seq<Event>, upTo: nat, pod: Pod)
    requires Careful(Idle(capacity), events) && upTo <= |events|
    ensures RealFree(Run(Idle(capacity), events[..upTo]), pod) >= 0
  {
    IdleIsConsistent(capacity);
    forall other ensures RealFree(Idle(capacity), other) >= 0 {
      assert RunningOn(Idle(capacity).live, other) == {};
    }
    NeverOverfills(Idle(capacity), events, {}, upTo, pod);
  }
}
