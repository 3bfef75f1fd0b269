/** What a pool can always still do: every request can end, and then every slot comes back. And how the
    steps that other requests interleave with add up when none does. */
module PoolProgress {
  import opened Wrappers
  import opened Lifecycle
  import opened PoolSpec
  import opened PoolProtocol
  import opened PoolInvariant
  import opened PoolSafety
  import opened PoolLimits

  // ----- a scan of its own -----

  /** A scan and its first compare-and-swap, with nothing in between, are the atomic reuse. */
  lemma ScanIsReuse(scope: Scope, s: Sys, r: nat, origin: Option<Origin>)
    requires Inv(scope, s) && r !in s.reqs
    ensures Next(scope, Next(scope, s, Scan(r, origin)), Cas(r)) == Next(scope, s, Reuse(r, origin))
  {
    if scope.mode.Reusable? && s.tick.None? {
      var ranks := LeastUsedRanks(View(s), origin, scope.lifecycle, s.now);
      var order := Order(ranks);
      var t := Next(scope, s, Scan(r, origin));
      if order == [] {
        assert t.reqs - {r} == s.reqs;
      } else {
        assert order[0] in order && Ranked(ranks, order[0]);
        var id := s.pool[order[0]];
        assert id in s.pool && CandidateIds(s, scope, origin)[0] == id;
        assert Next(scope, t, Cas(r)) == Claim(t, r, id);
        assert t.reqs[r := Holding(id, false)] == s.reqs[r := Holding(id, false)];
      }
    }
  }

  /** `n` compare-and-swaps of one scan. */
  function Tries(r: nat, n: nat): seq<Step> { if n == 0 then [] else [Cas(r)] + Tries(r, n - 1) }

  ghost predicate FirstTaken(s: Sys, candidates: seq<nat>, n: nat) {
    n <= |candidates| && forall k :: 0 <= k < n ==> candidates[k] in s.heap && s.heap[candidates[k]].busy
  }

  lemma {:induction false} TakenArePassedOver(scope: Scope, s: Sys, r: nat, n: nat)
    requires r in s.reqs && s.reqs[r].Scanning? && FirstTaken(s, s.reqs[r].candidates, n)
    ensures Run(scope, s, Tries(r, n)) == s.(reqs := s.reqs[r := Scanning(s.reqs[r].candidates[n..])])
    decreases n
  {
    var c := s.reqs[r].candidates;
    if n == 0 {
      assert s.reqs[r := Scanning(c[0..])] == s.reqs;
    } else {
      var t := Next(scope, s, Cas(r));
      assert t == s.(reqs := s.reqs[r := Scanning(c[1..])]);
      TakenArePassedOver(scope, t, r, n - 1);
      assert t.reqs[r := Scanning(c[1..][n - 1..])] == s.reqs[r := Scanning(c[n..])];
      RunCons(scope, s, Cas(r), Tries(r, n - 1));
    }
  }

  /** Candidates that others took meanwhile are passed over, in order; the scan ends with the first that
      is still idle, and empty-handed only when none is. */
  lemma ScanTakesTheFirstIdle(scope: Scope, s: Sys, r: nat, n: nat)
    requires r in s.reqs && s.reqs[r].Scanning? && FirstTaken(s, s.reqs[r].candidates, n)
    ensures var c := s.reqs[r].candidates;
            var t := Run(scope, s, Tries(r, n) + [Cas(r)]);
            && (n == |c| ==> t == s.(reqs := s.reqs - {r}))
            && (n < |c| && c[n] in s.heap && !s.heap[c[n]].busy ==> t == Claim(s, r, c[n]))
  {
    var c := s.reqs[r].candidates;
    TakenArePassedOver(scope, s, r, n);
    RunOneMore(scope, s, Tries(r, n), Cas(r));
    var u := Run(scope, s, Tries(r, n));
    assert u.reqs - {r} == s.reqs - {r};
    if n < |c| {
      assert c[n..][0] == c[n];
      assert u.reqs[r := Holding(c[n], false)] == s.reqs[r := Holding(c[n], false)];
    }
  }

  // ----- recording a block -----

  /** What a request records about its context is what later requests read off it, and no sooner and no
      longer. */
  lemma RecordedBlocksAreSeen(scope: Scope, s: Sys, r: nat, blocked: map<Origin, nat>)
    requires Inv(scope, s) && r in s.reqs && s.reqs[r].Holding?
    ensures var id := s.reqs[r].id;
            var t := Next(scope, Next(scope, s, Block(r, blocked)), Release(r));
            && id in t.heap && !t.heap[id].busy
            && forall origin, now :: RefusedBy(t.heap[id], Some(origin), now) <==> origin in blocked && now < blocked[origin]
  {
    assert Holds(s, r, s.reqs[r].id);
  }

  // ----- draining -----

  /** `r` is gone, and it left the pool and the monitor alone. */
  ghost predicate OnlyEnds(s: Sys, r: nat, t: Sys) {
    t.reqs == s.reqs - {r} && t.pool == s.pool && t.recycling == s.recycling && t.tick == s.tick && t.now == s.now
  }

  lemma HolderEnds(scope: Scope, s: Sys, r: nat)
    requires Inv(scope, s) && r in s.reqs && s.reqs[r].Holding?
    ensures OnlyEnds(s, r, Next(scope, s, Release(r)))
  {
    assert Holds(s, r, s.reqs[r].id);
  }

  /** Whatever a request is doing, its future can be dropped. */
  lemma {:induction false} RequestCanEnd(scope: Scope, s: Sys, r: nat) returns (steps: seq<Step>)
    requires Inv(scope, s) && r in s.reqs
    ensures OnlyEnds(s, r, Run(scope, s, steps))
    decreases if s.reqs[r].Scanning? then |s.reqs[r].candidates| + 1 else 0
  {
    match s.reqs[r]
    case Looking(_) => steps := [Abandon(r)]; RunCons(scope, s, Abandon(r), []);
    case Building => steps := [BuildLost(r)]; RunCons(scope, s, BuildLost(r), []);
    case Holding(_, _) => steps := [Release(r)]; HolderEnds(scope, s, r); RunCons(scope, s, Release(r), []);
    case Scanning(c) =>
      var t := Next(scope, s, Cas(r));
      StepKeepsInv(scope, s, Cas(r));
      assert t.reqs - {r} == s.reqs - {r};
      var rest: seq<Step> := [];
      if r in t.reqs { rest := RequestCanEnd(scope, t, r); }
      steps := [Cas(r)] + rest;
      RunCons(scope, s, Cas(r), rest);
  }

  lemma {:induction false} AllRequestsCanEnd(scope: Scope, s: Sys) returns (steps: seq<Step>)
    requires Inv(scope, s)
    ensures var t := Run(scope, s, steps);
            t.reqs == map[] && t.pool == s.pool && t.recycling == s.recycling && t.tick == s.tick && t.now == s.now
    decreases |s.reqs|
  {
    steps := [];
    if s.reqs != map[] {
      var r :| r in s.reqs;
      var first := RequestCanEnd(scope, s, r);
      var t := Run(scope, s, first);
      RunKeepsInv(scope, s, first);
      assert t.reqs.Keys == s.reqs.Keys - {r};
      assert |t.reqs| == |t.reqs.Keys| && |s.reqs| == |s.reqs.Keys|;
      var rest := AllRequestsCanEnd(scope, t);
      steps := first + rest;
      RunAppend(scope, s, first, rest);
    }
  }

  lemma {:induction false} AllRecyclesCanEnd(scope: Scope, s: Sys) returns (steps: seq<Step>)
    requires Inv(scope, s) && s.reqs == map[] && s.tick.None?
    ensures var t := Run(scope, s, steps);
            t.reqs == map[] && t.tick.None? && t.recycling == {} && |t.pool| == |s.pool|
    decreases |s.recycling|
  {
    steps := [];
    if s.recycling != {} {
      var id :| id in s.recycling;
      var swap := RecycleSwap(id, s.now);
      var t := Next(scope, s, swap);
      StepKeepsInv(scope, s, swap);
      assert t == SwapStep(s, id, s.now);
      var rest := AllRecyclesCanEnd(scope, t);
      steps := [swap] + rest;
      RunCons(scope, s, swap, rest);
    }
  }

  /** From every state the pool can drain: no slot is lost for good, whatever has happened to the requests
      that had it. */
  lemma PoolCanAlwaysDrain(scope: Scope, s: Sys) returns (steps: seq<Step>)
    requires Inv(scope, s)
    ensures var t := Run(scope, s, steps);
            && t.reqs == map[] && t.recycling == {} && t.tick.None? && t.pending == 0
            && (forall id :: id in t.pool ==> id in t.heap && !t.heap[id].busy)
            && (!scope.mode.Dedicated? ==>
                  && |t.pool| == |s.pool|
                  && StatsOf(View(t), t.pending, scope.maxContexts, scope.mode).availableSlots == scope.maxContexts)
  {
    var ended := AllRequestsCanEnd(scope, s);
    var quiet := Run(scope, s, ended);
    RunKeepsInv(scope, s, ended);
    var open := Next(scope, quiet, TickEnd);
    StepKeepsInv(scope, quiet, TickEnd);
    RunOneMore(scope, s, ended, TickEnd);
    var swaps := AllRecyclesCanEnd(scope, open);
    RunKeepsInv(scope, open, swaps);
    RunAppend(scope, s, ended + [TickEnd], swaps);
    steps := ended + [TickEnd] + swaps;
    QuietPoolIsIdle(scope, Run(scope, s, steps));
  }
}
