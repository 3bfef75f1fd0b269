/** Waiting out an anti-bot challenge, and the one budget it shares with the wait strategy. */
module Challenge {
  import opened Wrappers
  import opened Page
  import opened WaitStrategy

  const ChallengePollInterval: nat := 100

  datatype Outcome = NoChallenge | Passed | Failed

  /** The documents the observer showed since `base`. */
  function Documents(log: seq<Event>, base: nat): seq<Snapshot>
    decreases |log|
  {
    if |log| <= base then []
    else
      var earlier, last := Documents(log[..|log| - 1], base), log[|log| - 1];
      if last.Looked? && last.latest.Some? then earlier + [last.latest.value] else earlier
  }

  lemma DocumentsStep(log: seq<Event>, base: nat, e: Event)
    requires base <= |log|
    ensures Documents(log + [e], base)
         == if e.Looked? && e.latest.Some? then Documents(log, base) + [e.latest.value] else Documents(log, base)
  {
    assert (log + [e])[..|log|] == log;
  }

  /** It replaced the challenge, is complete, and is none itself. */
  predicate Passes(first: Snapshot, d: Snapshot) { d.number > first.number && d.loaded && !d.flagged }

  ghost predicate NonePasses(docs: seq<Snapshot>) {
    forall i :: 0 < i < |docs| ==> !Passes(docs[0], docs[i])
  }

  /** The outcome is what the documents say, and no document is looked past. */
  ghost predicate Judged(docs: seq<Snapshot>, outcome: Outcome) {
    match outcome
    case NoChallenge => docs == [] || (!docs[0].flagged && |docs| == 1)
    case Passed => |docs| > 1 && docs[0].flagged && Passes(docs[0], docs[|docs| - 1]) && NonePasses(docs[..|docs| - 1])
    case Failed => docs != [] && docs[0].flagged && NonePasses(docs)
  }

  method WaitOutChallenge(tab: Tab, window: nat) returns (r: Result<Outcome, Error>)
    modifies tab
    ensures old(tab.log) <= tab.log
    ensures old(tab.now) <= tab.now <= old(tab.now) + window + tab.slowest
    ensures r.Err? ==> r.error == Cancelled
    ensures tab.asked >= old(tab.asked) && (NeverJson(tab.replies, old(tab.asked)) ==> r.Ok?)
    ensures r.Ok? ==> Judged(Documents(tab.log, |old(tab.log)|), r.value)
    ensures r.Ok? && (r.value == Failed || Documents(tab.log, |old(tab.log)|) == []) ==> tab.now >= old(tab.now) + window
  {
    ghost var base := |tab.log|;
    var start := tab.now;
    var first: Option<nat> := None;
    while true
      invariant old(tab.log) <= tab.log && tab.asked >= old(tab.asked)
      invariant start <= tab.now <= start + window + tab.slowest
      invariant var docs := Documents(tab.log, base);
                && (docs == [] <==> first.None?)
                && (docs != [] ==> docs[0].flagged && docs[0].number == first.value && NonePasses(docs))
      decreases start + window + tab.slowest - tab.now
    {
      var cancelled := tab.IsCancelled();
      if cancelled { return Err(Cancelled); }
      ghost var seen := tab.log;
      var latest := tab.Latest();
      DocumentsStep(seen, base, Looked(latest));
      if latest.Some? {
        if first.None? {
          if !latest.value.flagged { return Ok(NoChallenge); }
          first := Some(latest.value.number);
        } else if latest.value.number > first.value && latest.value.loaded && !latest.value.flagged {
          assert Documents(tab.log, base)[..|Documents(tab.log, base)| - 1] == Documents(seen, base);
          return Ok(Passed);
        }
      }
      if tab.now - start >= window { return Ok(if first.None? then NoChallenge else Failed); }
      DocumentsStep(tab.log, base, Slept);
      tab.Sleep(Min(ChallengePollInterval, start + window - tab.now));
    }
  }

  predicate IsJson(latest: Option<Snapshot>) { latest.Some? && latest.value.json }

  /** Something to wait for: a JSON document whose body has not arrived. */
  predicate IsPendingJson(latest: Option<Snapshot>) { latest.Some? && latest.value.json && !latest.value.loaded }

  /** For `looks` looks at it the latest document is JSON that is still loading, then a page that never
      settles replaces it. */
  ghost predicate Replaced(replies: nat -> Reply, from: nat, looks: nat) {
    && Undisturbed(replies, from) && NeverIdle(replies, from)
    && forall k :: k >= from ==>
         replies(k).latest == Some(if k < from + 3 * looks then Snapshot(1, false, false, true) else Snapshot(2, true, false, false))
  }

  /** No document is JSON, and no one cancels. */
  ghost predicate NeverJson(replies: nat -> Reply, from: nat) {
    forall k :: k >= from ==>
      (replies(k).latest.Some? ==> !replies(k).latest.value.json) && !replies(k).cancelled
  }

  /** `first` is what the first look showed. */
  method WaitForJsonBody(tab: Tab, budget: nat) returns (r: Result<bool, Error>, first: Option<Snapshot>)
    modifies tab
    ensures old(tab.log) <= tab.log
    ensures old(tab.now) <= tab.now <= old(tab.now) + budget + tab.slowest
    ensures r.Err? ==> r.error == Cancelled
    ensures r.Ok? ==> |old(tab.log)| < |tab.log| && tab.log[|tab.log| - 1].Looked?
                      && var last := tab.log[|tab.log| - 1].latest; r.value == (last.Some? && last.value.json)
    ensures r == Ok(true) ==> tab.log[|tab.log| - 1].latest.value.loaded || tab.now >= old(tab.now) + budget
    ensures tab.now > old(tab.now) <==> IsPendingJson(first) && budget > 0
    ensures tab.asked >= old(tab.asked) && (NeverJson(tab.replies, old(tab.asked)) ==> r == Ok(false) && tab.now == old(tab.now))
    ensures forall looks: nat :: Replaced(tab.replies, old(tab.asked), looks) && 100 * looks <= budget ==>
              r == Ok(false) && tab.now == old(tab.now) + 100 * looks
  {
    var start := tab.now;
    first := None;
    var looked := false;
    ghost var polls := 0;
    while true
      invariant old(tab.log) <= tab.log
      invariant start <= tab.now <= start + budget + tab.slowest
      invariant looked ==> IsPendingJson(first) && !NeverJson(tab.replies, old(tab.asked)) && budget > 0 && tab.now > start
      invariant !looked ==> tab.now == start && first.None?
      invariant polls >= 0 && tab.asked == old(tab.asked) + 3 * polls
      invariant forall looks: nat :: Replaced(tab.replies, old(tab.asked), looks) && ChallengePollInterval * looks <= budget ==>
                  polls <= looks && tab.now == start + ChallengePollInterval * polls
      decreases start + budget + tab.slowest - tab.now
    {
      var cancelled := tab.IsCancelled();
      if cancelled { return Err(Cancelled), first; }
      var latest := tab.Latest();
      if !looked { first := latest; }
      looked := true;
      if !IsJson(latest) { return Ok(false), first; }
      if latest.value.loaded { return Ok(true), first; }
      if tab.now - start >= budget { return Ok(true), first; }
      tab.Sleep(Min(ChallengePollInterval, start + budget - tab.now));
      polls := polls + 1;
    }
  }

  /** Part of what was seen since `base` settles the challenge this way. */
  ghost predicate JudgedOnTheWay(log: seq<Event>, base: nat, outcome: Outcome) {
    exists n: nat :: base <= n <= |log| && Judged(Documents(log[..n], base), outcome)
  }

  /** What the blocking task does for one request: the challenge first, a JSON body next, then
      `network_idle` on what the challenge has left of the budget. `challenge` is what is reported of the
      first, and `spent` is the time it took. */
  method WaitTask(tab: Tab, recognisesChallenges: bool, challengeTimeout: nat, timeout: nat, wait: bool, skip: bool)
    returns (answer: Answer, jsonWait: nat, pendingJson: bool, challenge: Option<Outcome>, spent: nat)
    requires 0 < timeout <= 40_000
    modifies tab
    ensures jsonWait > 0 <==> pendingJson && spent < timeout
    ensures old(tab.now) <= tab.now <= old(tab.now) + Budget(timeout, wait) + jsonWait + 7 * tab.slowest
    ensures answer == Err(IdleTimeout) ==> tab.now >= old(tab.now) + Budget(timeout, wait) + jsonWait
    ensures old(tab.log) <= tab.log
    // a challenge is looked for exactly where the scope knows some and the request grants time, and judged
    ensures recognisesChallenges && challengeTimeout > 0 ==> challenge.Some? || answer == Err(Cancelled)
    ensures challenge.Some? ==> recognisesChallenges && challengeTimeout > 0
    ensures challenge.Some? ==> JudgedOnTheWay(tab.log, |old(tab.log)|, challenge.value)
    ensures spent <= (if recognisesChallenges then Min(challengeTimeout, timeout) + tab.slowest else 0)
    ensures challenge == Some(Failed) ==> spent >= Min(challengeTimeout, timeout)
    ensures NeverIdle(tab.replies, old(tab.asked)) && NeverJson(tab.replies, old(tab.asked))
            && (skip ==> NothingFound(tab.replies, old(tab.asked))) ==>
              tab.now >= old(tab.now) + Budget(timeout, wait)
    ensures NeverJson(tab.replies, old(tab.asked)) ==> jsonWait == 0
    ensures forall looks: nat ::
              Replaced(tab.replies, old(tab.asked), looks) && 100 * looks <= timeout
              && !recognisesChallenges && !wait && !skip ==>
                && jsonWait == 100 * looks && answer == Err(IdleTimeout)
                && tab.now == old(tab.now) + timeout + jsonWait + (if timeout % 501 == 0 then 1 else 0)
    ensures answer.Ok? && answer.value != SkipSelectorFound && skip ==>
              Fresh(tab.log, Skip) || (tab.log != [] && tab.log[|tab.log| - 1].Looked?
                                     && var last := tab.log[|tab.log| - 1].latest; last.Some? && last.value.json)
  {
    jsonWait, pendingJson, challenge, spent := 0, false, None, 0;
    var window := if recognisesChallenges then Min(challengeTimeout, timeout) else 0;
    if window > 0 {
      var started := tab.now;
      var outcome := WaitOutChallenge(tab, window);
      spent := tab.now - started;
      if outcome.Err? { return Err(outcome.error), jsonWait, pendingJson, challenge, spent; }
      challenge := Some(outcome.value);
    }
    ghost var judged := tab.log;
    var before := tab.now;
    var json, first := WaitForJsonBody(tab, Max(0, timeout - spent));
    jsonWait, pendingJson := tab.now - before, IsPendingJson(first);
    assert tab.log[..|judged|] == judged;
    if json.Err? { return Err(json.error), jsonWait, pendingJson, challenge, spent; }
    if json.value { return Ok(Success), jsonWait, pendingJson, challenge, spent; }
    answer := NetworkIdle(tab, spent, timeout, wait, skip);
    assert tab.log[..|judged|] == judged;
  }

  /** The budget `network_idle` gives itself. */
  function Budget(timeout: nat, wait: bool): nat { if wait then 40_000 else timeout }

  // ----- the race with the hard timeout -----

  /** What the worker grants the task beyond the request's timeout before it gives up on it. */
  const HardTimeoutMargin: nat := 10_000

  datatype Waited = Answered(answer: Answer) | HardTimeout

  /** The task ended after `took`, or would have: the worker answers with whatever comes first. When
      both are due in the same millisecond it may take either, as `timerFirst` says. */
  function Raced(answer: Answer, took: nat, timeout: nat, timerFirst: bool): (Waited, nat) {
    var hard := timeout + HardTimeoutMargin;
    if took < hard || (took == hard && !timerFirst) then (Answered(answer), took) else (HardTimeout, hard)
  }

  /** The wait of one request. `at` is when it is answered, counted from its start; a task that loses the
      race goes on by itself. */
  method AwaitPage(tab: Tab, recognisesChallenges: bool, challengeTimeout: nat, timeout: nat, wait: bool, skip: bool, timerFirst: bool)
    returns (waited: Waited, at: nat, answer: Answer, jsonWait: nat)
    requires 0 < timeout <= 40_000
    modifies tab
    // no request outlives the hard timeout, and none is cut before it
    ensures at <= timeout + 10_000
    ensures waited.HardTimeout? ==> at == timeout + 10_000 <= tab.now - old(tab.now)
    ensures waited.Answered? ==> waited.answer == answer && at == tab.now - old(tab.now)
    // none is cut whose budget fits
    ensures Budget(timeout, wait) + jsonWait + 7 * tab.slowest < timeout + 10_000 ==> waited.Answered?
    ensures NeverJson(tab.replies, old(tab.asked)) ==> jsonWait == 0
    // a page that never settles
    ensures NeverIdle(tab.replies, old(tab.asked)) && NeverJson(tab.replies, old(tab.asked))
            && (skip ==> NothingFound(tab.replies, old(tab.asked)))
            && Budget(timeout, wait) > timeout + 10_000 ==>
              waited.HardTimeout?
    // a JSON document that such a page replaces
    ensures forall looks: nat ::
              Replaced(tab.replies, old(tab.asked), looks) && 100 * looks <= timeout
              && !recognisesChallenges && !wait && !skip ==>
                var took := timeout + 100 * looks + (if timeout % 501 == 0 then 1 else 0);
                (waited, at) == Raced(Err(IdleTimeout), took, timeout, timerFirst)
  {
    var began := tab.now;
    var pendingJson, challenge, spent;
    answer, jsonWait, pendingJson, challenge, spent := WaitTask(tab, recognisesChallenges, challengeTimeout, timeout, wait, skip);
    var race := Raced(answer, tab.now - began, timeout, timerFirst);
    waited, at := race.0, race.1;
  }

  /** With a wait selector `network_idle` has its full budget whatever the request asked for, and the
      hard timeout has not: on a page that never settles every request below thirty seconds is cut, in
      the middle of a wait the strategy allows it. */
  method ShortTimeoutWithSelectorIsCut(timeout: nat, timerFirst: bool) returns (waited: Waited, at: nat)
    requires 0 < timeout <= 40_000
    ensures timeout < 30_000 ==> waited.HardTimeout? && at == timeout + 10_000
    ensures timeout > 30_007 ==> waited.Answered?
  {
    var tab := new Tab(1, k => Reply(0, false, false, None, Busy, false, None));
    assert NeverIdle(tab.replies, 0) && NeverJson(tab.replies, 0);
    var answer, jsonWait;
    waited, at, answer, jsonWait := AwaitPage(tab, false, 0, timeout, true, false, timerFirst);
  }

  /** Time spent on a JSON document that is then replaced is not taken from the budget: the request
      waits for that time on top of it, up to twice its budget, while the sum stays within the hard
      timeout. Beyond that it is cut. */
  method ReplacedJsonIsNotCharged(timeout: nat, looks: nat, timerFirst: bool) returns (waited: Waited, at: nat)
    requires 0 < timeout <= 40_000 && 100 * looks <= timeout
    ensures waited == Answered(Err(IdleTimeout)) <==>
              || 100 * looks < 10_000
              || (100 * looks == 10_000 && timeout % 501 != 0 && !timerFirst)
    ensures waited != Answered(Err(IdleTimeout)) <==> waited.HardTimeout?
    ensures waited.Answered? ==> at >= timeout + 100 * looks
  {
    var tab := new Tab(1, k => Reply(0, false, false, None, Busy, false,
                 Some(if k < 3 * looks then Snapshot(1, false, false, true) else Snapshot(2, true, false, false))));
    assert Replaced(tab.replies, 0, looks);
    var answer, jsonWait;
    waited, at, answer, jsonWait := AwaitPage(tab, false, 0, timeout, false, false, timerFirst);
  }
}
