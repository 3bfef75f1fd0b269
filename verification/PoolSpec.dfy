/** The decisions of the context pool, as functions of the pool's contents.

    Every decision is taken under the pool lock, so it is a function of the vector of contexts,
    the number of reserved slots and one reading of the clock. `BrowserPool` proves that its
    methods compute these functions; `PoolProtocol` runs them as steps of a transition system. */
module PoolSpec {
  import opened Wrappers
  import opened Lifecycle

  type Origin = string

  /** What a pool slot looks like at one moment. */
  datatype Slot = Slot(
    id: nat, busy: bool, createdAt: nat, lastUsedAt: nat, requests: nat, cacheMb: nat,
    blocked: map<Origin, nat>)
  {
    predicate UsedUp(cfg: LifecycleConfig, now: nat) {
      cfg.IsUsedUp(Elapsed(createdAt, now), requests)
    }

    predicate Expired(cfg: LifecycleConfig, now: nat) {
      cfg.ShouldRecycle(Elapsed(createdAt, now), requests, Elapsed(lastUsedAt, now), cacheMb)
    }

    predicate QuarantinedFor(origin: Origin, now: nat) {
      origin in blocked && blocked[origin] > now
    }

    /** May this slot be handed to a request for `origin` without a second thought? */
    predicate Eligible(origin: Option<Origin>, cfg: LifecycleConfig, now: nat) {
      && !busy
      && !UsedUp(cfg, now)
      && (origin.Some? ==> !QuarantinedFor(origin.value, now))
    }
  }

  function FreshSlot(id: nat, busy: bool, now: nat): Slot {
    Slot(id, busy, now, now, 0, 0, map[])
  }

  // ----- selection: filter, then a stable sort on a key -----

  /** The rank a slot competes with, absent for a slot the filter drops. */
  type Ranks = seq<Option<nat>>

  ghost predicate Ranked(ranks: Ranks, i: nat) {
    i < |ranks| && ranks[i].Some?
  }

  ghost predicate Before(ranks: Ranks, i: nat, j: nat) {
    && Ranked(ranks, i) && Ranked(ranks, j)
    && (ranks[i].value < ranks[j].value || (ranks[i].value == ranks[j].value && i < j))
  }

  ghost predicate Sorted(ranks: Ranks, order: seq<nat>) {
    forall a, b :: 0 <= a < b < |order| ==> Before(ranks, order[a], order[b])
  }

  /** `order` lists exactly the ranked positions below `n`, lowest rank first, ties in pool order. */
  ghost predicate IsOrder(ranks: Ranks, n: nat, order: seq<nat>) {
    && Sorted(ranks, order)
    && (forall i: nat :: i in order <==> i < n && Ranked(ranks, i))
  }

  function InsertByRank(ranks: Ranks, order: seq<nat>, i: nat): (r: seq<nat>)
    requires Ranked(ranks, i)
    requires forall x :: x in order ==> Ranked(ranks, x)
    ensures forall x :: x in r <==> x in order || x == i
  {
    if order == [] then [i]
    else
      var init, last := order[..|order| - 1], order[|order| - 1];
      assert order == init + [last];
      assert last in order && Ranked(ranks, last);
      if ranks[last].value <= ranks[i].value then order + [i] else InsertByRank(ranks, init, i) + [last]
  }

  lemma {:induction false} InsertSorted(ranks: Ranks, order: seq<nat>, i: nat)
    requires Ranked(ranks, i) && Sorted(ranks, order)
    requires forall x :: x in order ==> x < i && Ranked(ranks, x)
    ensures Sorted(ranks, InsertByRank(ranks, order, i))
  {
    if order != [] {
      var init, last := order[..|order| - 1], order[|order| - 1];
      assert last in order && Ranked(ranks, last);
      if ranks[last].value > ranks[i].value {
        InsertSorted(ranks, init, i);
        var q := InsertByRank(ranks, init, i);
        forall a | 0 <= a < |q| ensures Before(ranks, q[a], last) {
          assert q[a] in q;
        }
      } else {
        forall a | 0 <= a < |order| ensures Before(ranks, order[a], i) {
          assert order[a] in order;
          assert a < |order| - 1 ==> Before(ranks, order[a], order[|order| - 1]);
        }
      }
    }
  }

  /** The stable sort of the ranked positions among the first `n`. */
  function OrderUpTo(ranks: Ranks, n: nat): (order: seq<nat>)
    requires n <= |ranks|
    ensures forall x :: x in order ==> x < n && Ranked(ranks, x)
  {
    if n == 0 then []
    else
      var rest := OrderUpTo(ranks, n - 1);
      if ranks[n - 1].None? then rest else InsertByRank(ranks, rest, n - 1)
  }

  function Order(ranks: Ranks): (order: seq<nat>)
    ensures forall x :: x in order ==> Ranked(ranks, x)
  {
    OrderUpTo(ranks, |ranks|)
  }

  lemma {:induction false} OrderUpToIsOrder(ranks: Ranks, n: nat)
    requires n <= |ranks|
    ensures IsOrder(ranks, n, OrderUpTo(ranks, n))
  {
    if n != 0 {
      OrderUpToIsOrder(ranks, n - 1);
      if ranks[n - 1].Some? {
        InsertSorted(ranks, OrderUpTo(ranks, n - 1), n - 1);
      }
    }
  }

  /** The position a selection settles on: the first of the stable order. */
  function Best(ranks: Ranks): (r: Option<nat>) {
    var order := Order(ranks);
    if order == [] then None else Some(order[0])
  }

  /** `i` is ranked, no ranked position is lower, and an equal one comes later. */
  ghost predicate IsBest(ranks: Ranks, i: nat) {
    && i < |ranks| && ranks[i].Some?
    && (forall j :: 0 <= j < |ranks| && ranks[j].Some? ==>
          ranks[i].value < ranks[j].value || (ranks[i].value == ranks[j].value && i <= j))
  }

  /** Selection finds a candidate whenever there is one, and it is the earliest of the lowest. */
  lemma BestIsBest(ranks: Ranks)
    ensures Best(ranks).None? <==> (forall i :: 0 <= i < |ranks| ==> ranks[i].None?)
    ensures forall i: nat :: Best(ranks) == Some(i) <==> IsBest(ranks, i)
  {
    var order := Order(ranks);
    OrderUpToIsOrder(ranks, |ranks|);
    assert forall i: nat :: i in order <==> Ranked(ranks, i);
    if order == [] {
      forall i | 0 <= i < |ranks| ensures ranks[i].None? { assert !Ranked(ranks, i); }
    } else {
      assert order[0] in order && Ranked(ranks, order[0]);
      forall j | 0 <= j < |ranks| && ranks[j].Some?
        ensures ranks[order[0]].value < ranks[j].value || (ranks[order[0]].value == ranks[j].value && order[0] <= j)
      {
        assert Ranked(ranks, j) && j in order;
        var k :| 0 <= k < |order| && order[k] == j;
        if k > 0 { assert Before(ranks, order[0], order[k]); }
      }
      assert order[0] in order && IsBest(ranks, order[0]);
    }
  }

  function LeastUsedRank(s: Slot, origin: Option<Origin>, cfg: LifecycleConfig, now: nat): Option<nat> {
    if s.Eligible(origin, cfg, now) then Some(s.requests) else None
  }

  function LeastUsedRanks(slots: seq<Slot>, origin: Option<Origin>, cfg: LifecycleConfig, now: nat): (r: Ranks)
    ensures |r| == |slots|
    ensures forall i :: 0 <= i < |slots| ==> r[i] == LeastUsedRank(slots[i], origin, cfg, now)
  {
    seq(|slots|, i requires 0 <= i < |slots| => LeastUsedRank(slots[i], origin, cfg, now))
  }

  function SoonestRank(s: Slot, origin: Origin, cfg: LifecycleConfig, now: nat): Option<nat> {
    if !s.busy && !s.UsedUp(cfg, now) && s.QuarantinedFor(origin, now) then Some(s.blocked[origin]) else None
  }

  function SoonestRanks(slots: seq<Slot>, origin: Origin, cfg: LifecycleConfig, now: nat): (r: Ranks)
    ensures |r| == |slots|
    ensures forall i :: 0 <= i < |slots| ==> r[i] == SoonestRank(slots[i], origin, cfg, now)
  {
    seq(|slots|, i requires 0 <= i < |slots| => SoonestRank(slots[i], origin, cfg, now))
  }

  function UsedUpRank(s: Slot, cfg: LifecycleConfig, now: nat): Option<nat> {
    if !s.busy && s.UsedUp(cfg, now) then Some(s.createdAt) else None
  }

  function UsedUpRanks(slots: seq<Slot>, cfg: LifecycleConfig, now: nat): (r: Ranks)
    ensures |r| == |slots|
    ensures forall i :: 0 <= i < |slots| ==> r[i] == UsedUpRank(slots[i], cfg, now)
  {
    seq(|slots|, i requires 0 <= i < |slots| => UsedUpRank(slots[i], cfg, now))
  }

  // ----- the decision of get_or_create_context under the write lock -----

  datatype Grant =
    | Claimed(index: nat)      // an existing context, now busy
    | Reserved                 // a slot for a new context
    | Replaced(index: nat)     // the slot of this used-up context, which leaves the pool
    | Refused

  /** `dedicatedProxy`: the request carries routing overrides (a country), so no existing
      context can serve it. */
  function Decide(slots: seq<Slot>, pending: nat, max: nat, dedicatedProxy: bool,
                  origin: Option<Origin>, cfg: LifecycleConfig, now: nat): (g: Grant)
  {
    var leastUsed := if dedicatedProxy then None else Best(LeastUsedRanks(slots, origin, cfg, now));
    if leastUsed.Some? then Claimed(leastUsed.value)
    else if |slots| + pending < max then Reserved
    else
      var usedUp := Best(UsedUpRanks(slots, cfg, now));
      if usedUp.Some? then Replaced(usedUp.value)
      else
        var soonest := if dedicatedProxy || origin.None? then None
                       else Best(SoonestRanks(slots, origin.value, cfg, now));
        if soonest.Some? then Claimed(soonest.value) else Refused
  }

  /** A grant names only what may be given. */
  ghost predicate MayGrant(slots: seq<Slot>, pending: nat, max: nat, dedicatedProxy: bool,
                           cfg: LifecycleConfig, now: nat, g: Grant)
  {
    && (g.Claimed? ==>
          && g.index < |slots| && !slots[g.index].busy
          && !slots[g.index].UsedUp(cfg, now) && !dedicatedProxy)
    && (g.Reserved? ==> |slots| + pending < max)
    && (g.Replaced? ==>
          && g.index < |slots| && !slots[g.index].busy && slots[g.index].UsedUp(cfg, now)
          && |slots| + pending >= max
          && (forall i :: 0 <= i < |slots| && !slots[i].busy && slots[i].UsedUp(cfg, now) ==>
                slots[g.index].createdAt <= slots[i].createdAt))
  }

  /** Nothing can be given: the pool is full, and no idle context can serve the request or make room. */
  ghost predicate MustRefuse(slots: seq<Slot>, pending: nat, max: nat, dedicatedProxy: bool, cfg: LifecycleConfig, now: nat) {
    && |slots| + pending >= max
    && (forall i :: 0 <= i < |slots| && !slots[i].busy ==> dedicatedProxy && !slots[i].UsedUp(cfg, now))
  }

  lemma DecideGrants(slots: seq<Slot>, pending: nat, max: nat, dedicatedProxy: bool,
                     origin: Option<Origin>, cfg: LifecycleConfig, now: nat)
    ensures MayGrant(slots, pending, max, dedicatedProxy, cfg, now,
                     Decide(slots, pending, max, dedicatedProxy, origin, cfg, now))
  {
    BestIsBest(LeastUsedRanks(slots, origin, cfg, now));
    var u := UsedUpRanks(slots, cfg, now);
    BestIsBest(u);
    if origin.Some? {
      BestIsBest(SoonestRanks(slots, origin.value, cfg, now));
    }
    var g := Decide(slots, pending, max, dedicatedProxy, origin, cfg, now);
    if g.Replaced? {
      assert IsBest(u, g.index);
      assert forall i :: 0 <= i < |slots| && !slots[i].busy && slots[i].UsedUp(cfg, now) ==> u[i].Some?;
    }
  }

  lemma DecideRefuses(slots: seq<Slot>, pending: nat, max: nat, dedicatedProxy: bool,
                      origin: Option<Origin>, cfg: LifecycleConfig, now: nat)
    ensures Decide(slots, pending, max, dedicatedProxy, origin, cfg, now).Refused? <==>
              MustRefuse(slots, pending, max, dedicatedProxy, cfg, now)
  {
    var l := LeastUsedRanks(slots, origin, cfg, now);
    var u := UsedUpRanks(slots, cfg, now);
    BestIsBest(l);
    BestIsBest(u);
    if origin.Some? {
      BestIsBest(SoonestRanks(slots, origin.value, cfg, now));
    }
    if !dedicatedProxy {
      forall i | 0 <= i < |slots| && !slots[i].busy
        ensures l[i].Some? || u[i].Some? || (origin.Some? && SoonestRanks(slots, origin.value, cfg, now)[i].Some?)
      {
      }
    } else {
      assert forall i :: 0 <= i < |slots| ==> (u[i].Some? <==> !slots[i].busy && slots[i].UsedUp(cfg, now));
    }
  }

  /** What each grant promises about the slot it names, and when a request is turned away. */
  lemma DecideIsSound(slots: seq<Slot>, pending: nat, max: nat, dedicatedProxy: bool,
                      origin: Option<Origin>, cfg: LifecycleConfig, now: nat)
    ensures var g := Decide(slots, pending, max, dedicatedProxy, origin, cfg, now);
            && MayGrant(slots, pending, max, dedicatedProxy, cfg, now, g)
            && (g.Refused? <==> MustRefuse(slots, pending, max, dedicatedProxy, cfg, now))
  {
    DecideGrants(slots, pending, max, dedicatedProxy, origin, cfg, now);
    DecideRefuses(slots, pending, max, dedicatedProxy, origin, cfg, now);
  }

  /** As long as some idle context is eligible, the request gets one of those with the fewest
      requests, the first of them in the pool: reuse comes before growth and replacement. */
  lemma ReuseComesFirst(slots: seq<Slot>, pending: nat, max: nat, origin: Option<Origin>,
                        cfg: LifecycleConfig, now: nat, k: nat)
    requires k < |slots| && slots[k].Eligible(origin, cfg, now)
    ensures var g := Decide(slots, pending, max, false, origin, cfg, now);
            && g.Claimed? && g.index < |slots| && slots[g.index].Eligible(origin, cfg, now)
            && (forall i :: 0 <= i < |slots| && slots[i].Eligible(origin, cfg, now) ==>
                  || slots[g.index].requests < slots[i].requests
                  || (slots[g.index].requests == slots[i].requests && g.index <= i))
  {
    var l := LeastUsedRanks(slots, origin, cfg, now);
    BestIsBest(l);
    assert l[k].Some?;
    var g := Decide(slots, pending, max, false, origin, cfg, now);
    assert IsBest(l, g.index);
    assert forall i :: 0 <= i < |slots| && slots[i].Eligible(origin, cfg, now) ==> l[i] == Some(slots[i].requests);
  }

  /** A quarantined context is handed out only when the pool has nothing better: it is full, no
      idle context is eligible or used up, and this one's quarantine ends first. */
  lemma QuarantineFallbackIsLastResort(slots: seq<Slot>, pending: nat, max: nat, dedicatedProxy: bool,
                                       origin: Origin, cfg: LifecycleConfig, now: nat)
    ensures var g := Decide(slots, pending, max, dedicatedProxy, Some(origin), cfg, now);
            g.Claimed? && g.index < |slots| && slots[g.index].QuarantinedFor(origin, now) ==>
              && |slots| + pending >= max
              && (forall i :: 0 <= i < |slots| && !slots[i].busy ==>
                    && slots[i].QuarantinedFor(origin, now) && !slots[i].UsedUp(cfg, now)
                    && slots[g.index].blocked[origin] <= slots[i].blocked[origin])
  {
    DecideIsSound(slots, pending, max, dedicatedProxy, Some(origin), cfg, now);
    var l := LeastUsedRanks(slots, Some(origin), cfg, now);
    var u := UsedUpRanks(slots, cfg, now);
    var q := SoonestRanks(slots, origin, cfg, now);
    BestIsBest(l);
    BestIsBest(u);
    BestIsBest(q);
    var g := Decide(slots, pending, max, dedicatedProxy, Some(origin), cfg, now);
    if g.Claimed? && slots[g.index].QuarantinedFor(origin, now) {
      forall i | 0 <= i < |slots| && !slots[i].busy
        ensures slots[i].QuarantinedFor(origin, now) && !slots[i].UsedUp(cfg, now)
                && slots[g.index].blocked[origin] <= slots[i].blocked[origin]
      {
        assert l[i].None? && u[i].None?;
        assert q[i].Some?;
      }
    }
  }

  // ----- sweeps -----

  /** What an AlwaysNew reclaim leaves in the pool: the busy contexts, in order. */
  function BusyOnly(slots: seq<Slot>): (r: seq<Slot>) {
    if slots == [] then []
    else (if slots[0].busy then [slots[0]] else []) + BusyOnly(slots[1..])
  }

  // ----- stats -----

  datatype Stats = Stats(totalContexts: nat, totalSlots: nat, availableSlots: nat,
                         activeRequests: nat, claimedContexts: nat, totalRequests: nat)

  function CountBusy(slots: seq<Slot>): (n: nat)
    ensures n <= |slots|
  {
    if slots == [] then 0 else (if slots[0].busy then 1 else 0) + CountBusy(slots[1..])
  }

  function SumRequests(slots: seq<Slot>): nat {
    if slots == [] then 0 else slots[0].requests + SumRequests(slots[1..])
  }

  function StatsOf(slots: seq<Slot>, pending: nat, max: nat, mode: SessionMode): Stats {
    var active := CountBusy(slots) + pending;
    var claimed := if mode.Dedicated? then
                     (if |slots| + pending > active then |slots| + pending else active)
                   else active;
    Stats(|slots|, max, if max >= claimed then max - claimed else 0, active, claimed, SumRequests(slots))
  }

  lemma {:induction false} CountBusyIsFull(slots: seq<Slot>)
    ensures CountBusy(slots) == |slots| <==> (forall i :: 0 <= i < |slots| ==> slots[i].busy)
  {
    if slots != [] {
      CountBusyIsFull(slots[1..]);
      if forall i :: 0 <= i < |slots| ==> slots[i].busy {
        forall i | 0 <= i < |slots[1..]| ensures slots[1..][i].busy { assert slots[1..][i] == slots[i + 1]; }
      } else {
        var i :| 0 <= i < |slots| && !slots[i].busy;
        if i > 0 { assert slots[1..][i - 1] == slots[i]; }
      }
    }
  }

  lemma {:induction false} ReclaimKeepsTheBusy(slots: seq<Slot>)
    ensures |BusyOnly(slots)| == CountBusy(slots)
    ensures forall s :: s in BusyOnly(slots) <==> s in slots && s.busy
  {
    if slots != [] {
      ReclaimKeepsTheBusy(slots[1..]);
      assert slots == [slots[0]] + slots[1..];
    }
  }
}
