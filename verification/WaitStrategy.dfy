/** The two strategies that decide when a page is ready to be read. */
module WaitStrategy {
  import opened Wrappers
  import opened Page

  const MaxWaitTimeout: nat := 40_000
  const DefaultWaitTimeout: nat := 40_000
  const PollInterval: nat := 500
  const MaxReadyWait: nat := 30_000
  const MinReadyWait: nat := 100

  datatype WaitResult = Success | SkipSelectorFound | WaitSelectorNotFound

  type Answer = Result<WaitResult, Error>

  function Max(a: int, b: int): int { if a >= b then a else b }
  function Min(a: int, b: int): int { if a <= b then a else b }

  function ShouldExitEarly(status: nat): bool { status == 403 || status == 429 }

  function EffectiveTimeout(timeout: nat): nat {
    if timeout == 0 then DefaultWaitTimeout else if timeout > MaxWaitTimeout then MaxWaitTimeout else timeout
  }

  // ----- what a verdict stands on -----

  /** The origin was seen to refuse the page. */
  predicate Refused(e: Event) { e == StatusRead(Some(403)) || e == StatusRead(Some(429)) }

  /** A refusal ends the wait there and then: it is the last thing looked at, and the page is read as it
      is. */
  ghost predicate RefusalEnds(log: seq<Event>, base: nat, answer: Answer) {
    forall i :: base <= i < |log| && Refused(log[i]) ==> i == |log| - 1 && answer == Ok(Success)
  }

  ghost predicate NotRefused(log: seq<Event>, base: nat) {
    forall i :: base <= i < |log| ==> !Refused(log[i])
  }

  /** Something was seen since the run began, at `base`. */
  ghost predicate Seen(log: seq<Event>, base: nat, e: Event) { exists i :: base <= i < |log| && log[i] == e }

  lemma SeenStays(log: seq<Event>, longer: seq<Event>, base: nat, e: Event)
    requires log <= longer && Seen(log, base, e)
    ensures Seen(longer, base, e)
  {
    var i :| base <= i < |log| && log[i] == e;
    assert longer[i] == e;
  }

  lemma SeenStep(log: seq<Event>, base: nat, e: Event, x: Event)
    requires base <= |log|
    ensures Seen(log + [e], base, x) <==> Seen(log, base, x) || e == x
  {
    var longer := log + [e];
    assert longer[|log|] == e;
    if Seen(log, base, x) {
      var i :| base <= i < |log| && log[i] == x;
      assert longer[i] == x;
    }
  }

  /** Nothing has settled the verdict yet. */
  ghost predicate Undecided(tab: Tab, base: nat)
    reads tab
  {
    base <= |tab.log| && !Seen(tab.log, base, Checked(Skip, true)) && NotRefused(tab.log, base)
  }

  /** A skip selector is reported exactly when it was seen; any other verdict comes straight after a
      look that missed it, with no wait in between; a missing wait selector was looked for as
      freshly. */
  ghost predicate Grounded(log: seq<Event>, base: nat, wait: bool, skip: bool, verdict: WaitResult) {
    && (verdict == SkipSelectorFound <==> Seen(log, base, Checked(Skip, true)))
    && (verdict == SkipSelectorFound ==> skip)
    && (verdict != SkipSelectorFound && skip ==> Fresh(log, Skip))
    && (verdict == WaitSelectorNotFound ==> wait && Fresh(log, Wait))
  }

  /** Success stands on the wait selector, unless the origin refused the page. */
  ghost predicate Earned(log: seq<Event>, wait: bool, verdict: WaitResult) {
    verdict == Success && wait ==>
      log != [] && (log[|log| - 1] == Checked(Wait, true) || Refused(log[|log| - 1]))
  }

  ghost predicate GoodAnswer(tab: Tab, base: nat, wait: bool, skip: bool, answer: Answer)
    reads tab
  {
    && base <= |tab.log|
    && (answer.Ok? ==> Grounded(tab.log, base, wait, skip, answer.value) && Earned(tab.log, wait, answer.value))
    && RefusalEnds(tab.log, base, answer)
  }

  // ----- network_idle -----

  /** Without a wait selector the page is read only when the origin refused it, or when the network
      went quiet and the document was then given its chance to finish, if any time was left. */
  ghost predicate Rested(tab: Tab, base: nat, deadline: int)
    reads tab
  {
    || (tab.log != [] && Refused(tab.log[|tab.log| - 1]))
    || (&& Seen(tab.log, base, IdleRead(Quiet))
        && (Seen(tab.log, base, WaitedInPage) || tab.now > deadline - 100))
  }

  /** One last look at the wait selector, if there is one. */
  method FinalSelectorVerdict(tab: Tab, wait: bool, skip: bool, ghost base: nat) returns (answer: Answer)
    requires Undecided(tab, base) && (skip ==> Fresh(tab.log, Skip))
    modifies tab
    ensures old(tab.now) <= tab.now <= old(tab.now) + tab.slowest
    ensures GoodAnswer(tab, base, wait, skip, answer) && answer != Err(IdleTimeout) && tab.asked >= old(tab.asked)
    ensures !wait ==> tab.log == old(tab.log) && tab.now == old(tab.now) && answer == Ok(Success)
    ensures old(tab.log) <= tab.log
  {
    if !wait { return Ok(Success); }
    var found := tab.CheckSelector(Wait);
    if found.Err? { return Err(found.error); }
    if found.value { return Ok(Success); }
    return Ok(WaitSelectorNotFound);
  }

  method LookForSkip(tab: Tab, wait: bool, skip: bool, ghost base: nat) returns (answer: Option<Answer>)
    requires Undecided(tab, base)
    modifies tab
    ensures old(tab.now) <= tab.now <= old(tab.now) + tab.slowest && old(tab.log) <= tab.log
    ensures tab.asked >= old(tab.asked)
    ensures !skip ==> answer.None? && tab.now == old(tab.now) && tab.asked == old(tab.asked)
    ensures answer.Some? ==> GoodAnswer(tab, base, wait, skip, answer.value) && answer.value != Err(IdleTimeout)
    ensures answer.Some? && answer.value.Ok? ==> answer.value.value == SkipSelectorFound
    ensures NothingFound(tab.replies, old(tab.asked)) ==> answer.None?
    ensures answer.None? ==> Undecided(tab, base) && (skip ==> Fresh(tab.log, Skip))
    ensures answer.None? ==> Seen(tab.log, base, Checked(Wait, true)) == old(Seen(tab.log, base, Checked(Wait, true)))
  {
    if !skip { return None; }
    SeenStep(tab.log, base, Checked(Skip, false), Checked(Wait, true));
    var found := tab.CheckSelector(Skip);
    if found.Err? { return Some(Err(found.error)); }
    assert tab.log[|tab.log| - 1] == Checked(Skip, found.value);
    if found.value { return Some(Ok(SkipSelectorFound)); }
    return None;
  }

  /** A page that never settles, is never refused and never cancelled. */
  ghost predicate NeverIdle(replies: nat -> Reply, from: nat) {
    forall k :: k >= from ==>
      && replies(k).idle == Busy && !replies(k).cancelled
      && replies(k).status !in {Some(403), Some(429)}
  }

  /** A page that the origin refuses: nothing is ever found on it, and no one cancels. */
  ghost predicate AlwaysRefused(replies: nat -> Reply, from: nat) {
    NothingFound(replies, from) && forall k :: k >= from ==>
      !replies(k).cancelled && !replies(k).idle.NavigationFailed? && replies(k).status in {Some(403), Some(429)}
  }

  ghost predicate AlwaysBusy(replies: nat -> Reply, from: nat) {
    forall k :: k >= from ==> replies(k).idle == Busy
  }

  /** No selector is ever found, and no look fails. */
  ghost predicate NothingFound(replies: nat -> Reply, from: nat) {
    forall k :: k >= from ==> !replies(k).broken && !replies(k).found
  }

  /** One round of phase 1 on an undisturbed page: a status read and a sleep. */
  const Round: nat := PollInterval + 1

  /** One round of phase 1: the skip selector, the network, the status. */
  method IdleRound(tab: Tab, wait: bool, skip: bool, ghost base: nat) returns (answer: Option<Answer>, quiet: bool)
    requires Undecided(tab, base)
    modifies tab
    ensures old(tab.now) <= tab.now <= old(tab.now) + (if quiet then 1 else 2) * tab.slowest && tab.asked >= old(tab.asked)
    ensures answer.Some? ==> !quiet && GoodAnswer(tab, base, wait, skip, answer.value) && answer.value != Err(IdleTimeout)
    ensures answer.Some? && answer.value == Ok(Success) ==> tab.log != [] && Refused(tab.log[|tab.log| - 1])
    ensures answer != Some(Ok(WaitSelectorNotFound))
    ensures answer.None? ==> Undecided(tab, base) && (skip ==> Fresh(tab.log, Skip)) && (quiet || tab.now > old(tab.now))
    ensures quiet ==> Seen(tab.log, base, IdleRead(Quiet))
    ensures NeverIdle(tab.replies, old(tab.asked)) && (skip ==> NothingFound(tab.replies, old(tab.asked))) ==>
              !quiet && answer.None?
    ensures AlwaysRefused(tab.replies, old(tab.asked)) ==> quiet || answer == Some(Ok(Success))
    ensures AlwaysBusy(tab.replies, old(tab.asked)) ==> !quiet
    ensures old(tab.log) <= tab.log
    ensures Undisturbed(tab.replies, old(tab.asked)) && !skip && answer.None? && !quiet ==> tab.now == old(tab.now) + 1
  {
    quiet := false;
    var cancelled := tab.IsCancelled();
    if cancelled { return Some(Err(Cancelled)), quiet; }
    answer := LookForSkip(tab, wait, skip, base);
    if answer.Some? { return; }
    SeenStep(tab.log, base, IdleRead(Quiet), IdleRead(Quiet));
    var idle := tab.IdleState();
    match idle {
      case Quiet => quiet := true; return;
      case NavigationFailed => return Some(Err(Navigation)), quiet;
      case Busy =>
    }
    var status := tab.ReadStatus();
    if status.Some? && ShouldExitEarly(status.value) { return Some(Ok(Success)), quiet; }
  }

  /** The budget is gone before the network is quiet. */
  method IdleTimedOut(tab: Tab, wait: bool, skip: bool, ghost base: nat) returns (answer: Answer)
    requires Undecided(tab, base) && (skip ==> Fresh(tab.log, Skip))
    modifies tab
    ensures old(tab.now) <= tab.now <= old(tab.now) + tab.slowest && tab.asked >= old(tab.asked)
    ensures GoodAnswer(tab, base, wait, skip, answer)
    ensures !wait ==> answer == Err(IdleTimeout) && tab.now == old(tab.now)
    ensures wait ==> answer != Err(IdleTimeout)
    ensures old(tab.log) <= tab.log
  {
    if !wait { return Err(IdleTimeout); }
    answer := FinalSelectorVerdict(tab, wait, skip, base);
  }

  /** Half a second between two rounds, unless that would cross the deadline. */
  method Pause(tab: Tab, deadline: int, ghost base: nat) returns (slept: bool)
    requires Undecided(tab, base)
    modifies tab
    ensures Undecided(tab, base) && old(tab.log) <= tab.log && tab.asked >= old(tab.asked)
    ensures slept <==> deadline - old(tab.now) >= 500
    ensures if slept then old(tab.now) + 500 <= tab.now <= old(tab.now) + 500 + tab.slowest else tab.now == old(tab.now)
    ensures slept && tab.replies(old(tab.asked)).cost == 0 ==> tab.now == old(tab.now) + 500
  {
    slept := deadline - tab.now >= PollInterval;
    if slept { tab.Sleep(PollInterval); }
  }

  /** One round with what follows it: the end of the budget or a pause. It goes on when there is neither
      an answer nor quiet. */
  method IdleTurn(tab: Tab, start: int, total: nat, wait: bool, skip: bool, ghost base: nat)
    returns (answer: Option<Answer>, quiet: bool, slept: bool)
    requires Undecided(tab, base)
    modifies tab
    ensures tab.asked >= old(tab.asked) && old(tab.log) <= tab.log
    ensures answer.Some? ==> !quiet && GoodAnswer(tab, base, wait, skip, answer.value)
    ensures answer.None? ==> Undecided(tab, base)
    ensures quiet ==> (skip ==> Fresh(tab.log, Skip)) && Seen(tab.log, base, IdleRead(Quiet))
    ensures if answer.None? && !quiet then old(tab.now) < tab.now <= start + total + tab.slowest
            else old(tab.now) <= tab.now <= old(tab.now) + (if quiet then 1 else 3) * tab.slowest
    ensures answer == Some(Err(IdleTimeout)) ==> !wait && tab.now >= start + total
    ensures answer == Some(Ok(WaitSelectorNotFound)) ==> tab.now >= start + total
    ensures answer == Some(Ok(Success)) ==> wait || (tab.log != [] && Refused(tab.log[|tab.log| - 1]))
    ensures AlwaysRefused(tab.replies, old(tab.asked)) ==>
              quiet || (answer == Some(Ok(Success)) && tab.now <= old(tab.now) + 2 * tab.slowest)
    ensures AlwaysBusy(tab.replies, old(tab.asked)) ==> !quiet
    ensures NeverIdle(tab.replies, old(tab.asked)) && (skip ==> NothingFound(tab.replies, old(tab.asked))) ==>
              && !quiet && (answer.Some? ==> tab.now >= start + total)
              && (!wait ==> answer.None? || answer == Some(Err(IdleTimeout)))
    ensures Undisturbed(tab.replies, old(tab.asked)) && !wait && !skip && !quiet ==>
              && (answer.None? ==> old(tab.now) + 1 < start + total && tab.now == old(tab.now) + (if slept then Round else 1))
              && (answer.None? ==> if slept then tab.now <= start + total else start + total - tab.now < PollInterval)
              && (answer == Some(Err(IdleTimeout)) ==> tab.now == old(tab.now) + 1)
  {
    slept := false;
    answer, quiet := IdleRound(tab, wait, skip, base);
    if answer.Some? || quiet { return; }
    if tab.now - start >= total {
      var verdict := IdleTimedOut(tab, wait, skip, base);
      return Some(verdict), quiet, slept;
    }
    slept := Pause(tab, start + total, base);
  }

  /** Phase 1: until the network is almost idle; `None` when it is. No sleep crosses the deadline. */
  method AwaitIdle(tab: Tab, start: int, total: nat, wait: bool, skip: bool, ghost base: nat) returns (answer: Option<Answer>)
    requires Undecided(tab, base)
    modifies tab
    ensures old(tab.now) <= tab.now
    ensures answer.Some? ==> GoodAnswer(tab, base, wait, skip, answer.value)
    ensures answer.None? ==> Undecided(tab, base) && (skip ==> Fresh(tab.log, Skip))
    ensures answer.None? ==> Seen(tab.log, base, IdleRead(Quiet))
    ensures tab.now <= Max(old(tab.now), start + total) + (if answer.Some? then 4 else 2) * tab.slowest
    ensures answer == Some(Err(IdleTimeout)) ==> !wait && tab.now >= start + total
    ensures answer == Some(Ok(WaitSelectorNotFound)) ==> tab.now >= start + total
    ensures answer == Some(Ok(Success)) ==> wait || (tab.log != [] && Refused(tab.log[|tab.log| - 1]))
    ensures tab.asked >= old(tab.asked) && old(tab.log) <= tab.log
    ensures AlwaysRefused(tab.replies, old(tab.asked)) ==>
              && (answer.None? || answer == Some(Ok(Success))) && tab.now <= old(tab.now) + 2 * tab.slowest
              && (AlwaysBusy(tab.replies, old(tab.asked)) ==> answer == Some(Ok(Success)))
    ensures NeverIdle(tab.replies, old(tab.asked)) && !wait && !skip ==> answer == Some(Err(IdleTimeout))
    ensures NeverIdle(tab.replies, old(tab.asked)) && (skip ==> NothingFound(tab.replies, old(tab.asked))) ==>
              answer.Some? && tab.now >= start + total
    ensures NeverIdle(tab.replies, old(tab.asked)) && Undisturbed(tab.replies, old(tab.asked))
            && !wait && !skip && old(tab.now) == start ==>
              tab.now == start + total + (if total % Round == 0 then 1 else 0)
  {
    ghost var latest := Max(tab.now, start + total);
    ghost var rounds := 0;
    while true
      invariant Undecided(tab, base)
      invariant old(tab.now) <= tab.now <= latest + tab.slowest && tab.asked >= old(tab.asked)
      invariant rounds >= 0 && old(tab.log) <= tab.log
      invariant AlwaysRefused(tab.replies, old(tab.asked)) ==> tab.now == old(tab.now) && tab.asked == old(tab.asked)
      invariant Undisturbed(tab.replies, old(tab.asked)) && !wait && !skip && old(tab.now) == start ==>
                  || (tab.now == start + Round * rounds && Round * rounds <= total)
                  || (start + total - PollInterval < tab.now < start + total && total % Round != 0)
      decreases latest + tab.slowest - tab.now
    {
      var quiet, slept;
      answer, quiet, slept := IdleTurn(tab, start, total, wait, skip, base);
      if answer.Some? || quiet { return; }
      if slept { rounds := rounds + 1; }
    }
  }

  /** Phase 1.5: until the document is complete, within what is left of the budget. */
  method AwaitReady(tab: Tab, start: int, total: nat, ghost base: nat)
    requires Undecided(tab, base)
    modifies tab
    ensures old(tab.now) <= tab.now <= Max(old(tab.now), start + total) + 2 * tab.slowest
    ensures tab.now <= old(tab.now) + 30_000 + 2 * tab.slowest
    ensures Undecided(tab, base) && old(tab.log) <= tab.log && tab.asked >= old(tab.asked)
    ensures start + total - old(tab.now) >= 100 ==> Seen(tab.log, |old(tab.log)|, WaitedInPage)
  {
    var remaining := Max(0, start + total - tab.now);
    var maxReadyWait := Min(MaxReadyWait, remaining);
    if maxReadyWait >= MinReadyWait {
      tab.WaitInPage(maxReadyWait);
      assert tab.log[|tab.log| - 1] == WaitedInPage;
      var stillInteractive := tab.Read();
      if stillInteractive.found { var _ := tab.Call(); }   // diagnostics of what blocks it
    }
  }

  /** Phase 2: until the wait selector is there. No sleep crosses the deadline here either. */
  method AwaitSelector(tab: Tab, start: int, total: nat, timeout: nat, skip: bool, ghost base: nat) returns (answer: Answer)
    requires Undecided(tab, base)
    modifies tab
    ensures old(tab.now) <= tab.now
    ensures GoodAnswer(tab, base, true, skip, answer) && answer != Err(IdleTimeout)
    ensures tab.now <= Max(old(tab.now), start + total) + 4 * tab.slowest && old(tab.log) <= tab.log
    ensures timeout > 0 ==> tab.now <= old(tab.now) + timeout + 500 + 4 * tab.slowest
    ensures answer == Ok(WaitSelectorNotFound) ==> tab.now >= (if timeout == 0 then start + total else Min(start + total, old(tab.now) + timeout))
  {
    var remaining := Max(0, start + total - tab.now);
    var selectorTimeout := if timeout == 0 then remaining else Min(timeout, remaining);
    var selectorStart := tab.now;
    ghost var latest := Max(tab.now, start + total);
    while true
      invariant Undecided(tab, base)
      invariant old(tab.now) <= tab.now <= latest + tab.slowest && old(tab.log) <= tab.log
      invariant tab.now <= selectorStart + selectorTimeout + PollInterval + tab.slowest
      decreases latest + tab.slowest - tab.now
    {
      var cancelled := tab.IsCancelled();
      if cancelled { return Err(Cancelled); }
      var skipped := LookForSkip(tab, true, skip, base);
      if skipped.Some? { return skipped.value; }
      var found := tab.CheckSelector(Wait);
      if found.Err? { return Err(found.error); }
      if found.value { return Ok(Success); }
      // the selector's own time, or the whole budget
      if tab.now - selectorStart >= selectorTimeout || tab.now - start >= total {
        answer := FinalSelectorVerdict(tab, true, skip, base);
        return;
      }
      var _ := Pause(tab, start + total, base);
    }
  }

  /** Once the network is quiet: phase 1.5, another look for the skip selector, and phase 2. */
  method AfterIdle(tab: Tab, start: int, total: nat, timeout: nat, wait: bool, skip: bool, ghost base: nat) returns (answer: Answer)
    requires Undecided(tab, base) && Seen(tab.log, base, IdleRead(Quiet))
    modifies tab
    ensures old(tab.now) <= tab.now <= Max(old(tab.now) + 4 * tab.slowest, start + total + 5 * tab.slowest)
    ensures GoodAnswer(tab, base, wait, skip, answer) && answer != Err(IdleTimeout)
    ensures answer == Ok(WaitSelectorNotFound) ==>
              tab.now >= (if timeout == 0 then start + total else Min(start + total, old(tab.now) + timeout))
    ensures answer == Ok(Success) && !wait ==> Rested(tab, base, start + total)
    ensures AlwaysRefused(tab.replies, old(tab.asked)) ==> answer == Ok(Success) || tab.now >= start + total
    ensures old(tab.log) <= tab.log
  {
    ghost var idle, idleAt := tab.log, tab.now;
    AwaitReady(tab, start, total, base);
    ghost var ready := tab.log;
    var skipped := LookForSkip(tab, wait, skip, base);
    if skipped.Some? { return skipped.value; }
    assert Rested(tab, base, start + total) by {
      SeenStays(idle, tab.log, base, IdleRead(Quiet));
      if start + total - idleAt >= MinReadyWait { SeenStays(ready, tab.log, base, WaitedInPage); }
    }
    if tab.now - start >= total {
      answer := FinalSelectorVerdict(tab, wait, skip, base);
      return;
    }
    ghost var rested := tab.log;
    var status := tab.ReadStatus();
    if status.Some? && ShouldExitEarly(status.value) { return Ok(Success); }
    assert Rested(tab, base, start + total) by {
      SeenStays(rested, tab.log, base, IdleRead(Quiet));
      if start + total - idleAt >= MinReadyWait { SeenStays(ready, tab.log, base, WaitedInPage); }
    }
    if wait {
      answer := AwaitSelector(tab, start, total, timeout, skip, base);
      return;
    }
    return Ok(Success);
  }

  /** `network_idle`, its clock started `spent` ago. */
  method NetworkIdle(tab: Tab, spent: nat, timeout: nat, wait: bool, skip: bool) returns (answer: Answer)
    modifies tab
    ensures old(tab.now) <= tab.now && old(tab.log) <= tab.log
    ensures GoodAnswer(tab, |old(tab.log)|, wait, skip, answer)
    ensures var total := if wait || timeout == 0 || timeout > 40_000 then 40_000 else timeout;
            && tab.now <= Max(old(tab.now), old(tab.now) - spent + total) + 6 * tab.slowest
            && (answer == Err(IdleTimeout) ==> !wait && tab.now >= old(tab.now) - spent + total)
            && (answer == Ok(WaitSelectorNotFound) ==>
                  tab.now >= (if timeout == 0 then old(tab.now) - spent + total
                              else Min(old(tab.now) - spent + total, old(tab.now) + timeout)))
            && (NeverIdle(tab.replies, old(tab.asked)) && !wait && !skip ==> answer == Err(IdleTimeout))
            && (NeverIdle(tab.replies, old(tab.asked)) && (skip ==> NothingFound(tab.replies, old(tab.asked))) ==>
                  tab.now >= old(tab.now) - spent + total)
            && (NeverIdle(tab.replies, old(tab.asked)) && Undisturbed(tab.replies, old(tab.asked))
                && !wait && !skip && spent == 0 ==>
                  tab.now == old(tab.now) + total + (if total % 501 == 0 then 1 else 0))
            && (AlwaysRefused(tab.replies, old(tab.asked)) ==>
                  && (answer == Ok(Success) || tab.now >= old(tab.now) - spent + total)
                  && (AlwaysBusy(tab.replies, old(tab.asked)) ==>
                        answer == Ok(Success) && tab.now <= old(tab.now) + 2 * tab.slowest))
            && (answer == Ok(Success) && !wait ==> Rested(tab, |old(tab.log)|, old(tab.now) - spent + total))
  {
    ghost var base := |tab.log|;
    var start := tab.now - spent;
    var total := if wait then DefaultWaitTimeout else EffectiveTimeout(timeout);
    var early := AwaitIdle(tab, start, total, wait, skip, base);
    if early.Some? { return early.value; }
    answer := AfterIdle(tab, start, total, timeout, wait, skip, base);
  }

  // ----- timeout -----

  method LookForWait(tab: Tab, ghost base: nat) returns (found: Result<bool, Error>)
    requires Undecided(tab, base)
    modifies tab
    ensures old(tab.now) < tab.now <= old(tab.now) + tab.slowest && tab.asked >= old(tab.asked)
    ensures Undecided(tab, base) && Fresh(tab.log, Skip) == Fresh(old(tab.log), Skip)
    ensures found.Ok? ==>
              && Seen(tab.log, base, Checked(Wait, true)) == (old(Seen(tab.log, base, Checked(Wait, true))) || found.value)
              && (!found.value ==> Fresh(tab.log, Wait))
  {
    SeenStep(tab.log, base, Checked(Wait, false), Checked(Wait, true));
    found := tab.CheckSelector(Wait);
    if found.Ok? { assert tab.log[|tab.log| - 1] == Checked(Wait, found.value); }
  }

  /** Everything but the clock is as it should be for this answer. */
  ghost predicate TimeoutAnswer(tab: Tab, base: nat, wait: bool, skip: bool, answer: Answer)
    reads tab
  {
    && base <= |tab.log|
    && (answer.Ok? ==> Grounded(tab.log, base, wait, skip, answer.value))
    && (answer.Ok? && answer.value != SkipSelectorFound && wait ==>
          (answer.value == Success <==> Seen(tab.log, base, Checked(Wait, true))))
  }

  /** One round: the skip selector first, then the wait selector until it has been seen. It ends the
      wait on a skip, on an error, and on a hit that nothing can overrule. */
  method Poll(tab: Tab, wait: bool, skip: bool, seen: bool, ghost base: nat) returns (answer: Option<Answer>, seen': bool)
    requires Undecided(tab, base) && (seen <==> wait && Seen(tab.log, base, Checked(Wait, true))) && (seen ==> skip)
    modifies tab
    ensures old(tab.now) <= tab.now <= old(tab.now) + 2 * tab.slowest && tab.asked >= old(tab.asked)
    ensures answer.Some? ==> TimeoutAnswer(tab, base, wait, skip, answer.value)
    ensures answer.Some? && answer.value.Ok? ==>
              answer.value.value == SkipSelectorFound || (answer.value.value == Success && wait && !skip)
    ensures answer.None? ==>
              && Undecided(tab, base) && (skip ==> Fresh(tab.log, Skip))
              && (seen' <==> wait && Seen(tab.log, base, Checked(Wait, true))) && (seen' ==> skip)
    ensures Undisturbed(tab.replies, old(tab.asked)) && !wait && !skip ==> answer.None? && tab.now == old(tab.now)
  {
    seen' := seen;
    var cancelled := tab.IsCancelled();
    if cancelled { return Some(Err(Cancelled)), seen'; }
    answer := LookForSkip(tab, wait, skip, base);
    if answer.Some? { return; }
    if wait && !seen {
      var found := LookForWait(tab, base);
      if found.Err? { return Some(Err(found.error)), seen'; }
      if found.value {
        seen' := true;
        if !skip { return Some(Ok(Success)), seen'; }
      }
    }
  }

  /** The time is up: the wait selector decides, by one more look if it has not been seen. */
  method TimeIsUp(tab: Tab, wait: bool, skip: bool, seen: bool, ghost base: nat) returns (answer: Answer)
    requires Undecided(tab, base) && (skip ==> Fresh(tab.log, Skip))
    requires seen <==> wait && Seen(tab.log, base, Checked(Wait, true))
    modifies tab
    ensures old(tab.now) <= tab.now <= old(tab.now) + tab.slowest
    ensures TimeoutAnswer(tab, base, wait, skip, answer)
    ensures !wait ==> answer == Ok(Success) && tab.now == old(tab.now)
    ensures answer.Ok? ==> answer.value != SkipSelectorFound
  {
    if !wait || seen { return Ok(Success); }
    var found := LookForWait(tab, base);
    if found.Err? { return Err(found.error); }
    return Ok(if found.value then Success else WaitSelectorNotFound);
  }

  /** How often `timeout` sleeps to make up for `left` milliseconds. */
  function Sleeps(left: int): nat { if left <= 0 then 0 else (left + PollInterval - 1) / PollInterval }

  /** Exactly when whole sleeps overshoot what is left, and by less than one of them. */
  lemma SleepsOvershootIff(left: nat)
    ensures left <= 500 * Sleeps(left) < left + 500
    ensures 500 * Sleeps(left) > left <==> left % 500 != 0
  {
  }

  /** `timeout`, its clock started `spent` ago. With a skip selector it never returns early: the wait
      selector is remembered, and the skip selector keeps its chance until the time is up. It sleeps in
      whole intervals, so an undisturbed wait without selectors ends at the first one that is not
      before the deadline. */
  method Timeout(tab: Tab, spent: nat, timeout: nat, wait: bool, skip: bool, navigation: nat) returns (answer: Answer)
    modifies tab
    ensures old(tab.now) <= tab.now
    ensures TimeoutAnswer(tab, |old(tab.log)|, wait, skip, answer)
    ensures answer.Ok? && answer.value != SkipSelectorFound && (skip || !wait || answer.value == WaitSelectorNotFound) ==>
              tab.now >= old(tab.now) - spent + EffectiveTimeout(timeout)
    ensures tab.now <= Max(old(tab.now) + navigation + tab.slowest,
                           old(tab.now) + navigation + tab.slowest - spent + EffectiveTimeout(timeout) + 500)
                       + 4 * tab.slowest
    ensures Undisturbed(tab.replies, old(tab.asked)) && !wait && !skip ==>
              && answer == Ok(Success)
              && tab.now == old(tab.now) + 1 + 500 * Sleeps(EffectiveTimeout(timeout) - spent)
  {
    ghost var base := |tab.log|;
    tab.WaitInPage(navigation);
    var navigated := tab.Read();
    if navigated.broken { return Err(Navigation); }
    var start := tab.now - spent;
    var duration := EffectiveTimeout(timeout);
    var waitSelectorSeen := false;
    ghost var latest := Max(tab.now, start + duration + PollInterval);
    ghost var navigatedAt, slept := tab.now, 0;
    while true
      invariant Undecided(tab, base)
      invariant navigatedAt <= tab.now <= latest + tab.slowest
      invariant waitSelectorSeen <==> wait && Seen(tab.log, base, Checked(Wait, true))
      invariant waitSelectorSeen ==> skip
      invariant tab.asked >= old(tab.asked) && slept >= 0
      invariant Undisturbed(tab.replies, old(tab.asked)) && !wait && !skip ==>
                  && tab.now == navigatedAt + PollInterval * slept
                  && (slept > 0 ==> PollInterval * (slept - 1) + spent < duration)
      decreases latest + tab.slowest - tab.now
    {
      var early;
      early, waitSelectorSeen := Poll(tab, wait, skip, waitSelectorSeen, base);
      if early.Some? { return early.value; }
      if tab.now - start >= duration {
        answer := TimeIsUp(tab, wait, skip, waitSelectorSeen, base);
        return;
      }
      SeenStep(tab.log, base, Slept, Checked(Wait, true));
      tab.Sleep(PollInterval);
      slept := slept + 1;
    }
  }

  /** On such a page: it is the time to the next whole interval, whatever was asked for. */
  method UndisturbedTimeout(timeout: nat) returns (waited: nat)
    ensures var asked := if timeout == 0 || timeout > 40_000 then 40_000 else timeout;
            && asked <= waited < asked + 500 && waited % 500 == 0
            && (waited > asked <==> asked % 500 != 0)
  {
    var tab := new Tab(1, k => Reply(0, false, false, None, Busy, false, None));
    var answer := Timeout(tab, 0, timeout, false, false, 0);
    waited := tab.now - 1;
    SleepsOvershootIff(EffectiveTimeout(timeout));
  }

  // ----- a strategy that brings no clock of its own -----

  const U32Limit: nat := 0x1_0000_0000

  /** The timeout a strategy is given when part of its budget, in nanoseconds, is spent. */
  function RestOf(timeout: nat, spent: nat): nat {
    var ms := spent / 1_000_000;
    var spentMs := if ms < U32Limit then ms else U32Limit - 1;
    if spent == 0 then timeout else Max(1, Max(0, EffectiveTimeout(timeout) - spentMs))
  }

  /** It is never told 0, which it would read as the full default: its effective budget is what is
      left of it, at least one millisecond. */
  lemma RestIsWhatIsLeft(timeout: nat, spent: nat)
    ensures var full := if timeout == 0 || timeout > 40_000 then 40_000 else timeout;
            var left := if spent / 1_000_000 < full then full - spent / 1_000_000 else 1;
            && EffectiveTimeout(RestOf(timeout, spent)) == left
            && (spent > 0 ==> RestOf(timeout, spent) == left && left > 0)
  {
  }
}
