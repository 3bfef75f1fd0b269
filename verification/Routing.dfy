/** Which pod a request is sent to. */
module Routing {
  import opened Wrappers
  import opened Sequences
  import opened InFlight

  /** The routing counter is a 64-bit integer that wraps around. */
  const CounterLimit: nat := 0x1_0000_0000_0000_0000

  type FreeSlotsOf = Worker -> nat

  /** Pod names in byte order, which for well-formed text is the order of their characters. */
  predicate NameBefore(a: string, b: string) {
    b != [] && (a == [] || a[0] < b[0] || (a[0] == b[0] && NameBefore(a[1..], b[1..])))
  }

  function MostFree(workers: seq<Worker>, free: FreeSlotsOf): (most: nat)
    requires workers != []
    ensures exists w :: w in workers && free(w) == most
    ensures forall w :: w in workers ==> free(w) <= most
  {
    if |workers| == 1 then free(workers[0])
    else
      var rest := MostFree(workers[1..], free);
      assert workers == [workers[0]] + workers[1..];
      if free(workers[0]) > rest then free(workers[0]) else rest
  }

  predicate WorkerBefore(a: Worker, b: Worker) { NameBefore(a.podName, b.podName) }

  function ByName(workers: seq<Worker>): seq<Worker> { Sorted(workers, WorkerBefore) }

  /** The workers that tie on the most free slots, by pod name. */
  function Tied(workers: seq<Worker>, free: FreeSlotsOf): seq<Worker>
    requires workers != []
  {
    var most := MostFree(workers, free);
    ByName(Filter(workers, w => free(w) == most))
  }

  function PickMostFree(workers: seq<Worker>, free: FreeSlotsOf, rotation: nat): Option<(Worker, nat)> {
    if workers == [] then None
    else
      var tied := Tied(workers, free);
      TiedAreTheMaxima(workers, free);
      Some((tied[rotation % |tied|], MostFree(workers, free)))
  }

  datatype Selected = Selected(worker: Worker, freeSlots: nat, usedFallback: bool)

  function SelectBestWorker(workers: seq<Worker>, healthy: set<Pod>, free: FreeSlotsOf, rotation: nat): Option<Selected> {
    var eligible := Filter(workers, (w: Worker) => w.podName in healthy);
    var usedFallback := eligible == [];
    match PickMostFree(if usedFallback then workers else eligible, free, rotation)
    case Some((worker, freeSlots)) => Some(Selected(worker, freeSlots, usedFallback))
    case None => None
  }

  // ----- sorting -----

  predicate DistinctNames(workers: seq<Worker>) {
    forall i, j :: 0 <= i < j < |workers| ==> workers[i].podName != workers[j].podName
  }

  lemma {:induction false} NamesAreOrdered(a: string, b: string)
    ensures !(NameBefore(a, b) && NameBefore(b, a))
    ensures NameBefore(a, b) || NameBefore(b, a) || a == b
  {
    if a != [] && b != [] {
      NamesAreOrdered(a[1..], b[1..]);
      assert a == [a[0]] + a[1..] && b == [b[0]] + b[1..];
    }
  }

  /** `a` is cut short before its `k`-th character, or has the smaller one there. */
  predicate SmallerAt(a: string, b: string, k: nat) {
    k <= |a| && k < |b| && a[..k] == b[..k] && (k == |a| || a[k] < b[k])
  }

  lemma SameBeginning(a: string, b: string)
    ensures forall k: nat :: SmallerAt(a, b, k) && k > 0 ==> a != [] && b != [] && a[0] == b[0]
  {
    forall k: nat | SmallerAt(a, b, k) && k > 0 ensures a != [] && b != [] && a[0] == b[0] {
      assert a[..k][0] == a[0] && b[..k][0] == b[0];
    }
  }

  /** The order of the names is that of their first difference. */
  lemma {:induction false} NameBeforeIff(a: string, b: string)
    ensures NameBefore(a, b) <==> exists k: nat :: SmallerAt(a, b, k)
  {
    if a == [] || b == [] || a[0] != b[0] {
      assert NameBefore(a, b) ==> SmallerAt(a, b, 0);
      SameBeginning(a, b);
    } else {
      NameBeforeIff(a[1..], b[1..]);
      forall k: nat ensures SmallerAt(a[1..], b[1..], k) <==> SmallerAt(a, b, k + 1) {
        if k <= |a[1..]| && k < |b[1..]| {
          assert a[..k + 1] == [a[0]] + a[1..][..k] && b[..k + 1] == [b[0]] + b[1..][..k];
        }
      }
      if k: nat :| SmallerAt(a, b, k) {
        assert SmallerAt(a[1..], b[1..], k - 1);
      }
    }
  }

  lemma {:induction false} NotBeforeIsTransitive(a: string, b: string, c: string)
    requires !NameBefore(b, a) && !NameBefore(c, b)
    ensures !NameBefore(c, a)
  {
    if a != [] && b != [] && c != [] && a[0] == b[0] == c[0] {
      NotBeforeIsTransitive(a[1..], b[1..], c[1..]);
    }
  }

  lemma ByNameSorts(workers: seq<Worker>)
    ensures multiset(ByName(workers)) == multiset(workers) && InOrder(ByName(workers), WorkerBefore)
  {
    forall a, b | WorkerBefore(a, b) ensures !WorkerBefore(b, a) {
      NamesAreOrdered(a.podName, b.podName);
    }
    forall a, b, c | !WorkerBefore(b, a) && !WorkerBefore(c, b) ensures !WorkerBefore(c, a) {
      NotBeforeIsTransitive(a.podName, b.podName, c.podName);
    }
    SortedKeepsAll(workers, WorkerBefore);
    SortedIsInOrder(workers, WorkerBefore);
  }

  lemma TiedAreTheMaxima(workers: seq<Worker>, free: FreeSlotsOf)
    requires workers != []
    ensures Tied(workers, free) != []
    ensures forall w :: w in Tied(workers, free) <==> w in workers && free(w) == MostFree(workers, free)
  {
    var most := MostFree(workers, free);
    var maxima := Filter(workers, w => free(w) == most);
    FilterHolds(workers, w => free(w) == most);
    ByNameSorts(maxima);
    forall w ensures w in Tied(workers, free) <==> w in maxima {
      assert w in multiset(ByName(maxima)) <==> w in multiset(maxima);
    }
    var w :| w in workers && free(w) == most;
    assert w in maxima;
  }

  // ----- the pick -----

  /** The pick is a candidate with the most free slots, at the number it was ranked by; there is one
      whenever there is a candidate. */
  lemma PickIsAMaximum(workers: seq<Worker>, free: FreeSlotsOf, rotation: nat)
    ensures match PickMostFree(workers, free, rotation)
            case None => workers == []
            case Some((worker, slots)) =>
              && worker in workers && slots == free(worker)
              && forall w :: w in workers ==> free(w) <= slots
  {
    if workers != [] {
      TiedAreTheMaxima(workers, free);
      var tied := Tied(workers, free);
      assert tied[rotation % |tied|] in tied;
    }
  }

  /** Healthy pods first; any pod only when none is healthy; an answer whenever the scope has one. */
  lemma SelectionIsSound(workers: seq<Worker>, healthy: set<Pod>, free: FreeSlotsOf, rotation: nat)
    ensures match SelectBestWorker(workers, healthy, free, rotation)
            case None => workers == []
            case Some(s) =>
              && s.worker in workers && s.freeSlots == free(s.worker)
              && (s.usedFallback <==> forall w :: w in workers ==> w.podName !in healthy)
              && (!s.usedFallback ==> s.worker.podName in healthy)
              && (forall w :: w in workers && (s.usedFallback || w.podName in healthy) ==> free(w) <= s.freeSlots)
  {
    var isHealthy := (w: Worker) => w.podName in healthy;
    var eligible := Filter(workers, isHealthy);
    FilterHolds(workers, isHealthy);
    assert forall w :: w in eligible <==> w in workers && w.podName in healthy;
    PickIsAMaximum(if eligible == [] then workers else eligible, free, rotation);
    if eligible != [] { assert eligible[0] in eligible; }
  }

  // ----- independence of the order -----

  lemma {:induction false} SortedIsUnique(a: seq<Worker>, b: seq<Worker>)
    requires multiset(a) == multiset(b) && DistinctNames(a) && InOrder(a, WorkerBefore) && InOrder(b, WorkerBefore)
    ensures a == b
  {
    assert |a| == |multiset(a)| == |multiset(b)| == |b|;
    if a != [] {
      FirstIsFirst(a, b);
      assert a == [a[0]] + a[1..] && b == [b[0]] + b[1..];
      assert multiset(a[1..]) == multiset(a) - multiset{a[0]} == multiset(b[1..]);
      SortedIsUnique(a[1..], b[1..]);
    }
  }

  lemma FirstIsFirst(a: seq<Worker>, b: seq<Worker>)
    requires multiset(a) == multiset(b) && DistinctNames(a) && InOrder(a, WorkerBefore) && InOrder(b, WorkerBefore)
    requires a != [] && b != []
    ensures a[0] == b[0]
  {
    assert a[0] in multiset(b) && b[0] in multiset(a);
    var i :| 0 <= i < |a| && a[i] == b[0];
    var j :| 0 <= j < |b| && b[j] == a[0];
    NamesAreOrdered(a[0].podName, b[0].podName);
  }

  lemma {:induction false} FilterMultiset(workers: seq<Worker>, keep: Worker -> bool, w: Worker)
    ensures multiset(Filter(workers, keep))[w] == if keep(w) then multiset(workers)[w] else 0
  {
    if workers != [] {
      var shorter := workers[..|workers| - 1];
      FilterMultiset(shorter, keep, w);
      assert workers == shorter + [workers[|workers| - 1]];
    }
  }

  lemma {:induction false} FilterKeepsNames(workers: seq<Worker>, keep: Worker -> bool)
    requires DistinctNames(workers)
    ensures DistinctNames(Filter(workers, keep))
  {
    if workers != [] {
      var shorter := workers[..|workers| - 1];
      FilterKeepsNames(shorter, keep);
      FilterHolds(shorter, keep);
      forall i | 0 <= i < |Filter(shorter, keep)|
        ensures Filter(shorter, keep)[i].podName != workers[|workers| - 1].podName
      {
        assert Filter(shorter, keep)[i] in shorter;
      }
    }
  }

  lemma NamesSurviveSorting(workers: seq<Worker>, sorted: seq<Worker>)
    requires DistinctNames(workers) && multiset(sorted) == multiset(workers)
    ensures DistinctNames(sorted)
  {
    ReorderedKeepsDistinct(workers, sorted);
    forall i, j | 0 <= i < j < |sorted| ensures sorted[i].podName != sorted[j].podName {
      assert sorted[i] in workers && sorted[j] in workers && sorted[i] != sorted[j];
    }
  }

  /** Discovery lists the pods in no particular order; with distinct names the pick does not depend
      on it. */
  lemma PickIgnoresTheOrder(workers: seq<Worker>, reordered: seq<Worker>, free: FreeSlotsOf, rotation: nat)
    requires DistinctNames(workers) && multiset(workers) == multiset(reordered)
    ensures PickMostFree(workers, free, rotation) == PickMostFree(reordered, free, rotation)
  {
    assert |workers| == |multiset(workers)| == |reordered|;
    if workers != [] {
      SameMembers(workers, reordered);
      var most := MostFree(workers, free);
      assert most == MostFree(reordered, free);
      var keep := (w: Worker) => free(w) == most;
      TiedIgnoresTheOrder(workers, reordered, keep);
      assert Tied(workers, free) == ByName(Filter(workers, keep));
      assert Tied(reordered, free) == ByName(Filter(reordered, keep));
    }
  }

  lemma SameMembers(a: seq<Worker>, b: seq<Worker>)
    requires multiset(a) == multiset(b)
    ensures forall w :: w in a <==> w in b
  {
    forall w ensures w in a <==> w in b {
      assert w in multiset(a) <==> w in multiset(b);
    }
  }

  lemma TiedIgnoresTheOrder(a: seq<Worker>, b: seq<Worker>, keep: Worker -> bool)
    requires DistinctNames(a) && multiset(a) == multiset(b)
    ensures ByName(Filter(a, keep)) == ByName(Filter(b, keep))
  {
    var fa, fb := Filter(a, keep), Filter(b, keep);
    forall w ensures multiset(fa)[w] == multiset(fb)[w] {
      FilterMultiset(a, keep, w);
      FilterMultiset(b, keep, w);
    }
    assert multiset(fa) == multiset(fb);
    ByNameSorts(fa);
    ByNameSorts(fb);
    FilterKeepsNames(a, keep);
    NamesSurviveSorting(fa, ByName(fa));
    SortedIsUnique(ByName(fa), ByName(fb));
  }

  // ----- fairness -----

  /** The counter value `k` decisions after it showed `start`. */
  function Counter(start: nat, k: nat): nat { (start + k) % CounterLimit }

  function Turn(n: nat, start: nat): nat -> nat
    requires n > 0
  {
    k => Counter(start, k) % n
  }

  ghost predicate HasTurn(n: nat, turn: nat -> nat, t: nat) { exists k :: 0 <= k < n && turn(k) == t }

  /** In `n` consecutive decisions everyone has a turn, and no one has two. */
  ghost predicate Fair(n: nat, turn: nat -> nat) {
    && (forall t :: 0 <= t < n ==> HasTurn(n, turn, t))
    && (forall j, k :: 0 <= j < k < n ==> turn(j) != turn(k))
  }

  lemma RemainderIs(x: nat, q: int, n: nat, r: nat)
    requires n > 0 && x == q * n + r && r < n
    ensures x % n == r
  {
    var d := x / n - q;
    assert x == (x / n) * n + x % n;
    assert d * n == r - x % n;
    assert d >= 1 ==> d * n >= n;
    assert d <= -1 ==> d * n + n <= 0;
  }

  /** Where a counter stands `k` places after remainder `r`. */
  function Around(n: nat, r: nat, k: nat): nat
    requires r < n && k <= n
  {
    if r + k < n then r + k else r + k - n
  }

  lemma RemainderGoesAround(n: nat, x: nat, k: nat)
    requires n > 0 && k <= n
    ensures (x + k) % n == Around(n, x % n, k)
  {
    var q, r := x / n, x % n;
    assert x == q * n + r;
    if r + k < n {
      RemainderIs(x + k, q, n, r + k);
    } else if r + k < 2 * n {
      assert (q + 1) * n == q * n + n;
      RemainderIs(x + k, q + 1, n, r + k - n);
    }
  }

  lemma TurnGoesAround(n: nat, start: nat, k: nat)
    requires 0 < n <= CounterLimit && start < CounterLimit && k < n
    requires start + n <= CounterLimit || CounterLimit % n == 0
    ensures Turn(n, start)(k) == Around(n, start % n, k)
  {
    RemainderGoesAround(n, start, k);
    if start + k < CounterLimit {
      assert Counter(start, k) == start + k;
    } else {
      var m := CounterLimit / n;
      var x := start + k - CounterLimit;
      assert Counter(start, k) == x;
      assert CounterLimit == m * n;
      var q := x / n;
      assert x == q * n + x % n;
      assert (q + m) * n == q * n + m * n;
      RemainderIs(start + k, q + m, n, x % n);
    }
  }

  lemma TurnsAcrossTheWrap(n: nat, start: nat, k: nat)
    requires 0 < n <= CounterLimit && start < CounterLimit < start + n && k < n
    ensures start + k >= CounterLimit ==> Turn(n, start)(k) == start + k - CounterLimit
    ensures start + k < CounterLimit ==>
              Turn(n, start)(k) < n && Around(n, Turn(n, start)(k), CounterLimit - start - k) == CounterLimit % n
  {
    if start + k < CounterLimit {
      RemainderGoesAround(n, start + k, CounterLimit - start - k);
    } else {
      RemainderIs(start + k - CounterLimit, 0, n, start + k - CounterLimit);
    }
  }

  lemma AroundIsFair(n: nat, r: nat, turn: nat -> nat)
    requires r < n && forall k :: 0 <= k < n ==> turn(k) == Around(n, r, k)
    ensures Fair(n, turn)
  {
    forall t: nat | t < n ensures HasTurn(n, turn, t) {
      assert turn(if t >= r then t - r else t - r + n) == t;
    }
  }

  /** A jump back to 0 after `before` turns, from anywhere but the last place. */
  lemma JumpIsUnfair(n: nat, s: nat, before: nat, turn: nat -> nat)
    requires 0 < s < n && 0 < before < n
    requires forall k :: 0 <= k < before ==> turn(k) < n && Around(n, turn(k), before - k) == s
    requires forall k :: before <= k < n ==> turn(k) == k - before
    ensures !Fair(n, turn)
  {
    if s - 1 < n - before {
      assert turn(before - 1) == s - 1 == turn(before + s - 1);
    } else {
      assert !HasTurn(n, turn, s);
    }
  }

  /** The rotation is fair exactly when the counter does not wrap on the way, or wraps without
      breaking the rhythm. */
  lemma FairIff(n: nat, start: nat)
    requires 0 < n <= CounterLimit && start < CounterLimit
    ensures Fair(n, Turn(n, start)) <==> start + n <= CounterLimit || CounterLimit % n == 0
  {
    var turn := Turn(n, start);
    if start + n <= CounterLimit || CounterLimit % n == 0 {
      forall k: nat | k < n ensures turn(k) == Around(n, start % n, k) {
        TurnGoesAround(n, start, k);
      }
      AroundIsFair(n, start % n, turn);
    } else {
      forall k: nat | k < n
        ensures start + k >= CounterLimit ==> turn(k) == start + k - CounterLimit
        ensures start + k < CounterLimit ==>
                  turn(k) < n && Around(n, turn(k), CounterLimit - start - k) == CounterLimit % n
      {
        TurnsAcrossTheWrap(n, start, k);
      }
      JumpIsUnfair(n, CounterLimit % n, CounterLimit - start, turn);
    }
  }

  lemma DistinctNamesPickOne(workers: seq<Worker>, free: FreeSlotsOf)
    requires workers != [] && DistinctNames(workers)
    ensures DistinctNames(Tied(workers, free))
  {
    var most := MostFree(workers, free);
    var maxima := Filter(workers, w => free(w) == most);
    FilterKeepsNames(workers, w => free(w) == most);
    ByNameSorts(maxima);
    NamesSurviveSorting(maxima, ByName(maxima));
  }

  function Picked(workers: seq<Worker>, free: FreeSlotsOf, start: nat, k: nat): Worker
    requires workers != []
  {
    PickIsAMaximum(workers, free, Counter(start, k));
    PickMostFree(workers, free, Counter(start, k)).value.0
  }

  ghost function Maxima(workers: seq<Worker>, free: FreeSlotsOf): set<Worker> {
    set w | w in workers && forall v :: v in workers ==> free(v) <= free(w)
  }

  ghost function NamedBefore(among: set<Worker>, w: Worker): set<Worker> {
    set v | v in among && NameBefore(v.podName, w.podName)
  }

  lemma TiedAreMaxima(workers: seq<Worker>, free: FreeSlotsOf)
    requires workers != [] && DistinctNames(workers)
    ensures Maxima(workers, free) == (set w | w in Tied(workers, free))
    ensures |Maxima(workers, free)| == |Tied(workers, free)|
    ensures InOrder(Tied(workers, free), WorkerBefore) && DistinctNames(Tied(workers, free))
  {
    var tied, most := Tied(workers, free), MostFree(workers, free);
    TiedAreTheMaxima(workers, free);
    DistinctNamesPickOne(workers, free);
    DistinctCount(tied);
    ByNameSorts(Filter(workers, w => free(w) == most));
    forall w | w in workers ensures w in Maxima(workers, free) <==> free(w) == most {
    }
  }

  lemma PlaceByName(tied: seq<Worker>, k: nat)
    requires k < |tied| && DistinctNames(tied) && InOrder(tied, WorkerBefore)
    ensures |NamedBefore((set w | w in tied), tied[k])| == k
  {
    DistinctCount(tied[..k]);
    forall v | v in tied ensures NameBefore(v.podName, tied[k].podName) <==> v in tied[..k] {
      var j :| 0 <= j < |tied| && tied[j] == v;
      NamesAreOrdered(tied[j].podName, tied[k].podName);
      if j < k { assert tied[..k][j] == v; }
      if v in tied[..k] {
        var i :| 0 <= i < k && tied[i] == v;
      }
    }
    assert NamedBefore((set w | w in tied), tied[k]) == set w | w in tied[..k];
  }

  /** Which of the tied pods it is: the one whose place by name is the counter's remainder. */
  lemma PickIsTheTurn(workers: seq<Worker>, free: FreeSlotsOf, rotation: nat)
    requires workers != [] && DistinctNames(workers)
    ensures var tied := Maxima(workers, free);
            var pick := PickMostFree(workers, free, rotation);
            && tied != {} && pick.Some? && pick.value.0 in tied
            && |NamedBefore(tied, pick.value.0)| == rotation % |tied|
  {
    TiedAreMaxima(workers, free);
    TiedAreTheMaxima(workers, free);
    var tied := Tied(workers, free);
    PlaceByName(tied, rotation % |tied|);
    assert tied[rotation % |tied|] in tied;
  }

  /** While n pods tie, n consecutive decisions send one request to each of them. */
  lemma EveryTiedPodServesOnce(workers: seq<Worker>, free: FreeSlotsOf, start: nat)
    requires workers != [] && DistinctNames(workers)
    requires var n := |Tied(workers, free)|;
             n <= CounterLimit && start < CounterLimit && (start + n <= CounterLimit || CounterLimit % n == 0)
    ensures var n := |Tied(workers, free)|;
            && (forall w :: w in Tied(workers, free) ==> exists k :: 0 <= k < n && Picked(workers, free, start, k) == w)
            && (forall j, k :: 0 <= j < k < n ==>
                  Picked(workers, free, start, j).podName != Picked(workers, free, start, k).podName)
  {
    var tied := Tied(workers, free);
    TiedAreTheMaxima(workers, free);
    DistinctNamesPickOne(workers, free);
    FairIff(|tied|, start);
    var picked := (k: nat) => Picked(workers, free, start, k);
    forall k: nat ensures picked(k) == tied[Turn(|tied|, start)(k)] {
    }
    TurnsAreServed(tied, Turn(|tied|, start), picked);
    forall w | w in tied ensures exists k :: 0 <= k < |tied| && Picked(workers, free, start, k) == w {
      var k :| 0 <= k < |tied| && picked(k) == w;
      assert Picked(workers, free, start, k) == w;
    }
    forall j: nat, k: nat | j < k < |tied|
      ensures Picked(workers, free, start, j).podName != Picked(workers, free, start, k).podName
    {
      assert picked(j).podName != picked(k).podName;
    }
  }

  lemma TurnsAreServed(tied: seq<Worker>, turn: nat -> nat, picked: nat -> Worker)
    requires DistinctNames(tied) && Fair(|tied|, turn) && (forall k :: turn(k) < |tied|)
    requires forall k :: picked(k) == tied[turn(k)]
    ensures forall w :: w in tied ==> exists k :: 0 <= k < |tied| && picked(k) == w
    ensures forall j, k :: 0 <= j < k < |tied| ==> picked(j).podName != picked(k).podName
  {
    forall w | w in tied ensures exists k :: 0 <= k < |tied| && picked(k) == w {
      var t :| 0 <= t < |tied| && tied[t] == w;
      assert HasTurn(|tied|, turn, t);
      var k :| 0 <= k < |tied| && turn(k) == t;
      assert picked(k) == w;
    }
    forall j: nat, k: nat | j < k < |tied| ensures picked(j).podName != picked(k).podName {
      assert turn(j) != turn(k);
    }
  }

  // ----- routing on the corrected numbers -----

  /** Routing ranks a worker by its corrected number. */
  function Corrected(f: Fleet): FreeSlotsOf {
    (w: Worker) => EffectiveFreeSlots(w, CurrentOf(f.byPod, w.podName))
  }

  ghost predicate Listed(f: Fleet, workers: seq<Worker>) {
    forall w :: w in workers ==> w.podName in f.routable && f.routable[w.podName] == w
  }

  ghost predicate TruthPlusDrift(f: Fleet, w: Worker) {
    Corrected(f)(w) == Positive(RealFree(f, w.podName) + Drift(f, w.podName))
  }

  /** When the best pick has no free slot, no eligible pod has one either, except one whose drift is
      negative, that is, which others have given slots back to since its snapshot; and without drift
      the pick's number is real. */
  ghost predicate RefusalIsHonest(f: Fleet, workers: seq<Worker>, healthy: set<Pod>, s: Selected) {
    && (Drift(f, s.worker.podName) == 0 ==> s.freeSlots == Positive(RealFree(f, s.worker.podName)))
    && (s.freeSlots == 0 ==>
          forall w :: w in workers && (s.usedFallback || w.podName in healthy) ==>
            RealFree(f, w.podName) <= -Drift(f, w.podName))
  }

  lemma HonestWhereCorrected(f: Fleet, workers: seq<Worker>, healthy: set<Pod>, rotation: nat)
    requires workers != [] && forall w :: w in workers ==> TruthPlusDrift(f, w)
    ensures var s := SelectBestWorker(workers, healthy, Corrected(f), rotation);
            s.Some? && RefusalIsHonest(f, workers, healthy, s.value)
  {
    SelectionIsSound(workers, healthy, Corrected(f), rotation);
    var s := SelectBestWorker(workers, healthy, Corrected(f), rotation).value;
    assert TruthPlusDrift(f, s.worker) && s.freeSlots == Corrected(f)(s.worker);
    if s.freeSlots == 0 {
      forall w | w in workers && (s.usedFallback || w.podName in healthy) ensures RealFree(f, w.podName) <= -Drift(f, w.podName) {
        assert TruthPlusDrift(f, w) && Corrected(f)(w) <= 0;
      }
    }
  }

  /** After any trace, refusals are honest. */
  lemma RefusalMeansFull(capacity: Counts, events: seq<Event>, workers: seq<Worker>, healthy: set<Pod>, rotation: nat)
    requires workers != [] && Listed(Run(Idle(capacity), events), workers)
    ensures var f := Run(Idle(capacity), events);
            var s := SelectBestWorker(workers, healthy, Corrected(f), rotation);
            s.Some? && RefusalIsHonest(f, workers, healthy, s.value)
  {
    var f := Run(Idle(capacity), events);
    forall w | w in workers ensures TruthPlusDrift(f, w) {
      CorrectionIsTruthPlusDrift(capacity, events, w.podName);
    }
    HonestWhereCorrected(f, workers, healthy, rotation);
  }
}
