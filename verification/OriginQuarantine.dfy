/** The origins a context is refused by: a bounded map that stands for an unbounded one.

    An entry maps an origin to the instant its quarantine ends. The map is capped, so recording a
    block may have to make room, and reads prune. The theorem is that none of this shows: while no
    more origins are live at once than the map holds, every read answers as the unbounded
    map would. */
module OriginQuarantine {
  import opened Wrappers

  type Origin = string
  type Deadlines = map<Origin, nat>

  const MAX_BLOCKED_ORIGINS: nat := 32

  function Live(m: Deadlines, now: nat): Deadlines {
    map o | o in m && m[o] > now :: m[o]
  }

  /** What a read answers. */
  function Until(m: Deadlines, origin: Origin, now: nat): Option<nat> {
    if origin in m && m[origin] > now then Some(m[origin]) else None
  }

  ghost predicate Earliest(m: Deadlines, o: Origin) {
    o in m && forall x :: x in m ==> m[o] <= m[x]
  }

  /** Which maps can follow when a block is recorded; ties for the earliest go either way. */
  ghost predicate Blocks(m: Deadlines, origin: Origin, until: nat, now: nat, m': Deadlines) {
    if origin in m || |m| < MAX_BLOCKED_ORIGINS then m' == m[origin := until]
    else if |Live(m, now)| < MAX_BLOCKED_ORIGINS then m' == Live(m, now)[origin := until]
    else exists evicted :: Earliest(Live(m, now), evicted) && m' == (Live(m, now) - {evicted})[origin := until]
  }

  function Pruned(m: Deadlines, origin: Origin, now: nat): Deadlines {
    if origin in m && m[origin] <= now then m - {origin} else m
  }

  class BlockedOrigins {
    var blocked: Deadlines

    constructor ()
      ensures blocked == map[]
    {
      blocked := map[];
    }

    method QuarantineOrigin(origin: Origin, cooldown: nat, now: nat)
      modifies this
      ensures Blocks(old(blocked), origin, now + cooldown, now, blocked)
    {
      if origin !in blocked && |blocked| >= MAX_BLOCKED_ORIGINS {
        blocked := map o | o in blocked && blocked[o] > now :: blocked[o];
        if |blocked| >= MAX_BLOCKED_ORIGINS {
          var earliest := EarliestKey(blocked);
          blocked := blocked - {earliest};
        }
      }
      blocked := blocked[origin := now + cooldown];
    }

    method QuarantinedUntil(origin: Origin, now: nat) returns (until: Option<nat>)
      modifies this
      ensures until == Until(old(blocked), origin, now)
      ensures blocked == Pruned(old(blocked), origin, now)
    {
      if origin in blocked {
        if blocked[origin] > now { return Some(blocked[origin]); }
        blocked := blocked - {origin};
      }
      until := None;
    }
  }

  method EarliestKey(m: Deadlines) returns (best: Origin)
    requires m != map[]
    ensures Earliest(m, best)
  {
    best :| best in m;
    var rest := m.Keys;
    while rest != {}
      invariant best in m && rest <= m.Keys
      invariant forall x :: x in m && x !in rest ==> m[best] <= m[x]
      decreases |rest|
    {
      var o :| o in rest;
      if m[o] < m[best] { best := o; }
      rest := rest - {o};
    }
  }

  // ----- one step -----

  lemma LiveSize(m: Deadlines, now: nat)
    ensures |Live(m, now)| <= |m|
    ensures |Live(m, now)| == |m| ==> Live(m, now) == m
  {
    assert Live(m, now).Keys <= m.Keys;
    SubsetSize(Live(m, now).Keys, m.Keys);
  }

  lemma {:induction false} SubsetSize<T>(a: set<T>, b: set<T>)
    requires a <= b
    ensures |a| <= |b| && (|a| == |b| ==> a == b)
  {
    if a != {} {
      var x :| x in a;
      SubsetSize(a - {x}, b - {x});
    } else if b != {} {
      assert |b| > 0;
    }
  }

  lemma InsertSize(m: Deadlines, o: Origin, until: nat)
    ensures |m[o := until]| == |m| + (if o in m then 0 else 1)
  {
    var n := m[o := until];
    assert n.Keys == m.Keys + {o};
    assert |n| == |n.Keys| && |m| == |m.Keys|;
  }

  lemma RemoveSize(m: Deadlines, o: Origin)
    requires o in m
    ensures |m - {o}| == |m| - 1
  {
    var n := m - {o};
    assert n.Keys == m.Keys - {o};
    assert |n| == |n.Keys| && |m| == |m.Keys|;
  }

  lemma BlockKeepsTheBound(m: Deadlines, origin: Origin, until: nat, now: nat, m': Deadlines)
    requires |m| <= MAX_BLOCKED_ORIGINS && Blocks(m, origin, until, now, m')
    ensures |m'| <= MAX_BLOCKED_ORIGINS && origin in m' && m'[origin] == until
  {
    if origin in m || |m| < MAX_BLOCKED_ORIGINS {
      InsertSize(m, origin, until);
    } else if |Live(m, now)| < MAX_BLOCKED_ORIGINS {
      InsertSize(Live(m, now), origin, until);
    } else {
      LiveSize(m, now);
      var e :| Earliest(Live(m, now), e) && m' == (Live(m, now) - {e})[origin := until];
      RemoveSize(Live(m, now), e);
      InsertSize(Live(m, now) - {e}, origin, until);
    }
  }

  /** A live entry makes room only when the map is full of live entries, and it is one of those
      that would have ended first. */
  lemma EvictedIsEarliestOfAFullMap(m: Deadlines, origin: Origin, until: nat, now: nat, m': Deadlines, o: Origin)
    requires |m| <= MAX_BLOCKED_ORIGINS && Blocks(m, origin, until, now, m')
    requires o in m && m[o] > now && o !in m'
    ensures |m| == 32 && Live(m, now) == m && Earliest(m, o)
  {
    LiveSize(m, now);
    assert o in Live(m, now);
  }

  /** Exactly when that happens: the map is full of live entries and the origin is a new one. */
  lemma EvictionHappensIff(m: Deadlines, origin: Origin, until: nat, now: nat, m': Deadlines)
    requires |m| <= MAX_BLOCKED_ORIGINS && Blocks(m, origin, until, now, m')
    ensures (exists o :: o in m && m[o] > now && o !in m') <==>
              (origin !in m && |Live(m, now)| == 32)
  {
    LiveSize(m, now);
    if origin !in m && |Live(m, now)| == MAX_BLOCKED_ORIGINS {
      var e :| Earliest(Live(m, now), e) && m' == (Live(m, now) - {e})[origin := until];
      assert e in m && m[e] > now && e !in m';
    } else {
      forall o | o in m && m[o] > now ensures o in m' {
        assert o in Live(m, now);
      }
    }
  }

  // ----- runs -----

  datatype Event =
    | Block(origin: Origin, cooldown: nat, now: nat)
    | Read(origin: Origin, now: nat)

  ghost predicate Moves(m: Deadlines, e: Event, m': Deadlines) {
    match e
    case Block(origin, cooldown, now) => Blocks(m, origin, now + cooldown, now, m')
    case Read(origin, now) => m' == Pruned(m, origin, now)
  }

  /** `maps[i]` is a map the bounded one can be after the first `i` events. */
  ghost predicate IsRun(events: seq<Event>, maps: seq<Deadlines>) {
    && |maps| == |events| + 1 && maps[0] == map[]
    && (forall i :: 0 <= i < |events| ==> Moves(maps[i], events[i], maps[i + 1]))
  }

  ghost predicate ClockIsMonotone(events: seq<Event>) {
    forall i, j :: 0 <= i < j < |events| ==> events[i].now <= events[j].now
  }

  /** The unbounded map beside it: nothing is ever dropped, and reads change nothing. */
  ghost predicate IsUnboundedRun(events: seq<Event>, us: seq<Deadlines>) {
    && |us| == |events| + 1 && us[0] == map[]
    && (forall i :: 0 <= i < |events| ==> us[i + 1] == Recorded(us[i], events[i]))
  }

  function Recorded(u: Deadlines, e: Event): Deadlines {
    match e
    case Block(origin, cooldown, now) => u[origin := now + cooldown]
    case Read(_, _) => u
  }

  /** A block finds room: the live origins and the newly blocked one fit. */
  ghost predicate Fits(u: Deadlines, e: Event) {
    e.Block? ==> |Live(u, e.now).Keys + {e.origin}| <= 32
  }

  ghost predicate AlwaysFits(events: seq<Event>, us: seq<Deadlines>)
    requires |us| == |events| + 1
  {
    forall i :: 0 <= i < |events| ==> Fits(us[i], events[i])
  }

  /** The bounded map holds nothing else, and everything that is still live. */
  ghost predicate Agrees(m: Deadlines, u: Deadlines, now: nat) {
    && (forall o :: o in m ==> o in u && m[o] == u[o])
    && (forall o :: o in u && u[o] > now ==> o in m)
  }

  lemma LiveAgree(m: Deadlines, u: Deadlines, now: nat)
    requires Agrees(m, u, now)
    ensures Live(m, now) == Live(u, now)
  {
  }

  lemma LiveWithOne(m: Deadlines, origin: Origin, now: nat)
    ensures origin in Live(m, now) ==> |Live(m, now).Keys + {origin}| == |Live(m, now)|
    ensures origin !in Live(m, now) ==> |Live(m, now).Keys + {origin}| == |Live(m, now)| + 1
  {
    var l := Live(m, now);
    assert |l| == |l.Keys|;
    if origin in l { assert l.Keys + {origin} == l.Keys; }
  }

  lemma BlockKeepsAgreement(m: Deadlines, u: Deadlines, origin: Origin, cooldown: nat, now: nat, m': Deadlines)
    requires |m| <= MAX_BLOCKED_ORIGINS && Agrees(m, u, now) && Blocks(m, origin, now + cooldown, now, m')
    requires |Live(u, now).Keys + {origin}| <= MAX_BLOCKED_ORIGINS
    ensures Agrees(m', u[origin := now + cooldown], now)
  {
    LiveAgree(m, u, now);
    LiveWithOne(u, origin, now);
    EvictionHappensIff(m, origin, now + cooldown, now, m');
    LiveSize(m, now);
    var u' := u[origin := now + cooldown];
    forall o | o in u' && u'[o] > now ensures o in m' {
      if o != origin {
        assert o in m && m[o] > now;
      }
    }
  }

  lemma PruneKeepsAgreement(m: Deadlines, u: Deadlines, origin: Origin, now: nat)
    requires |m| <= MAX_BLOCKED_ORIGINS && Agrees(m, u, now)
    ensures |Pruned(m, origin, now)| <= MAX_BLOCKED_ORIGINS && Agrees(Pruned(m, origin, now), u, now)
  {
    if origin in m { RemoveSize(m, origin); }
  }

  lemma StepAgrees(m: Deadlines, u: Deadlines, e: Event, m': Deadlines)
    requires |m| <= MAX_BLOCKED_ORIGINS && Agrees(m, u, e.now) && Moves(m, e, m') && Fits(u, e)
    ensures |m'| <= MAX_BLOCKED_ORIGINS && Agrees(m', Recorded(u, e), e.now)
  {
    match e
    case Block(origin, cooldown, at) =>
      BlockKeepsTheBound(m, origin, at + cooldown, at, m');
      BlockKeepsAgreement(m, u, origin, cooldown, at, m');
    case Read(origin, at) =>
      PruneKeepsAgreement(m, u, origin, at);
  }

  lemma {:induction false} RunAgrees(events: seq<Event>, maps: seq<Deadlines>, us: seq<Deadlines>, n: nat, now: nat)
    requires IsRun(events, maps) && IsUnboundedRun(events, us) && AlwaysFits(events, us) && ClockIsMonotone(events)
    requires n <= |events| && (n > 0 ==> events[n - 1].now <= now)
    ensures |maps[n]| <= 32 && Agrees(maps[n], us[n], now)
  {
    if n > 0 {
      var i, at := n - 1, events[n - 1].now;
      RunAgrees(events, maps, us, i, at);
      assert Moves(maps[i], events[i], maps[i + 1]) && us[i + 1] == Recorded(us[i], events[i]);
      assert Fits(us[i], events[i]);
      StepAgrees(maps[i], us[i], events[i], maps[n]);
      LaterAgrees(maps[n], us[n], at, now);
    }
  }

  lemma LaterAgrees(m: Deadlines, u: Deadlines, at: nat, now: nat)
    requires Agrees(m, u, at) && at <= now
    ensures Agrees(m, u, now)
  {
  }

  /** For any blocks and reads under a monotone clock: every answer is the unbounded map's. */
  lemma ReadsAnswerAsUnbounded(events: seq<Event>, maps: seq<Deadlines>, us: seq<Deadlines>, i: nat)
    requires IsRun(events, maps) && IsUnboundedRun(events, us) && AlwaysFits(events, us) && ClockIsMonotone(events)
    requires i < |events| && events[i].Read?
    ensures Until(maps[i], events[i].origin, events[i].now) == Until(us[i], events[i].origin, events[i].now)
  {
    RunAgrees(events, maps, us, i, events[i].now);
  }

  /** The last block of the origin among the first `n` events. */
  ghost predicate LastBlock(events: seq<Event>, origin: Origin, n: nat, j: nat)
    requires n <= |events|
  {
    && j < n && IsBlock(events[j], origin)
    && forall k :: j < k < n ==> !IsBlock(events[k], origin)
  }

  predicate IsBlock(e: Event, origin: Origin) { e.Block? && e.origin == origin }

  function EndOf(e: Event): nat
    requires e.Block?
  {
    e.now + e.cooldown
  }

  lemma {:induction false} UnboundedKnowsTheLastBlock(events: seq<Event>, us: seq<Deadlines>, origin: Origin, n: nat)
    requires IsUnboundedRun(events, us) && n <= |events|
    ensures origin in us[n] <==> exists j: nat :: LastBlock(events, origin, n, j)
    ensures forall j: nat :: LastBlock(events, origin, n, j) ==> us[n][origin] == EndOf(events[j])
  {
    if n > 0 {
      var i := n - 1;
      UnboundedKnowsTheLastBlock(events, us, origin, i);
      assert us[i + 1] == Recorded(us[i], events[i]);
      if IsBlock(events[i], origin) {
        assert LastBlock(events, origin, n, i);
      } else {
        forall j: nat ensures LastBlock(events, origin, n, j) <==> LastBlock(events, origin, i, j) {
        }
      }
    }
  }

  /** In terms of the events alone: an origin is refused until its last block ends, and then no longer. */
  lemma ReadsAnswerTheLastBlock(events: seq<Event>, maps: seq<Deadlines>, us: seq<Deadlines>, i: nat)
    requires IsRun(events, maps) && IsUnboundedRun(events, us) && AlwaysFits(events, us) && ClockIsMonotone(events)
    requires i < |events| && events[i].Read?
    ensures match Until(maps[i], events[i].origin, events[i].now)
            case Some(until) =>
              events[i].now < until && exists j: nat :: LastBlock(events, events[i].origin, i, j) && until == EndOf(events[j])
            case None =>
              forall j: nat :: LastBlock(events, events[i].origin, i, j) ==> EndOf(events[j]) <= events[i].now
  {
    ReadsAnswerAsUnbounded(events, maps, us, i);
    UnboundedKnowsTheLastBlock(events, us, events[i].origin, i);
  }

  /** The bound itself needs no condition. */
  lemma {:induction false} MapStaysBounded(events: seq<Event>, maps: seq<Deadlines>, n: nat)
    requires IsRun(events, maps) && n <= |events|
    ensures |maps[n]| <= 32
  {
    if n > 0 {
      MapStaysBounded(events, maps, n - 1);
      assert Moves(maps[n - 1], events[n - 1], maps[n - 1 + 1]);
      match events[n - 1]
      case Block(origin, cooldown, now) =>
        BlockKeepsTheBound(maps[n - 1], origin, now + cooldown, now, maps[n]);
      case Read(origin, now) =>
        if origin in maps[n - 1] { RemoveSize(maps[n - 1], origin); }
    }
  }

  /** Where the condition fails the map forgets: one block too many, and some origin that the
      unbounded map still refuses is served. */
  lemma OneTooManyForgets(m: Deadlines, u: Deadlines, origin: Origin, cooldown: nat, now: nat, m': Deadlines)
    requires |m| <= MAX_BLOCKED_ORIGINS && Agrees(m, u, now) && Blocks(m, origin, now + cooldown, now, m')
    requires |Live(u, now).Keys + {origin}| > 32
    ensures exists o :: Until(u[origin := now + cooldown], o, now).Some? && Until(m', o, now).None?
  {
    LiveAgree(m, u, now);
    LiveWithOne(u, origin, now);
    LiveSize(m, now);
    EvictionHappensIff(m, origin, now + cooldown, now, m');
    var o :| o in m && m[o] > now && o !in m';
    assert Until(u[origin := now + cooldown], o, now).Some? && Until(m', o, now).None?;
  }
}
