/** The tab a request waits on, and the clock it waits by. What the page answers is not known: it is
    read from `replies`, which is arbitrary. Every call to the browser takes at least one millisecond
    and at most `slowest`; a sleep may overrun by as much; code between calls takes no time. */
module Page {
  import opened Wrappers

  type Millis = x: nat | x > 0 witness 1

  datatype Selector = Skip | Wait

  datatype Idle = Busy | Quiet | NavigationFailed

  /** A main-frame document as the response observer saw it. */
  datatype Snapshot = Snapshot(number: nat, loaded: bool, flagged: bool, json: bool)

  datatype Reply = Reply(
    cost: nat, broken: bool, found: bool, status: Option<nat>, idle: Idle, cancelled: bool, latest: Option<Snapshot>)

  datatype Event =
    | Checked(selector: Selector, found: bool)
    | CheckBroke
    | StatusRead(status: Option<nat>)
    | IdleRead(idle: Idle)
    | Slept
    | WaitedInPage
    | Looked(latest: Option<Snapshot>)

  datatype Error = Cancelled | Broken | Navigation | IdleTimeout

  /** From the `from`-th reply on nothing fails, no one cancels, and everything takes as little time as
      it can: a call one millisecond, a sleep exactly its length. */
  ghost predicate Undisturbed(replies: nat -> Reply, from: nat) {
    forall k :: k >= from ==> replies(k).cost == 0 && !replies(k).broken && !replies(k).cancelled
  }

  /** Time may have passed between what was seen before and what is seen after. */
  predicate IsWait(e: Event) { e.Slept? || e.WaitedInPage? }

  /** The last look at the selector found nothing, and nothing was waited for since. */
  predicate Fresh(log: seq<Event>, selector: Selector)
    decreases |log|
  {
    log != [] &&
    var last := log[|log| - 1];
    if last.Checked? && last.selector == selector then !last.found
    else !IsWait(last) && Fresh(log[..|log| - 1], selector)
  }

  lemma FreshStep(log: seq<Event>, e: Event)
    ensures forall s :: Fresh(log + [e], s) <==>
              if e.Checked? && e.selector == s then !e.found else !IsWait(e) && Fresh(log, s)
  {
    assert (log + [e])[..|log|] == log;
  }

  ghost predicate FreshFrom(log: seq<Event>, selector: Selector, i: nat) {
    && i < |log| && log[i] == Checked(selector, false)
    && forall j :: i < j < |log| ==> !IsWait(log[j]) && !(log[j].Checked? && log[j].selector == selector)
  }

  lemma FreshFromStep(log: seq<Event>, e: Event, selector: Selector, i: nat)
    requires i < |log|
    ensures FreshFrom(log + [e], selector, i) <==>
              FreshFrom(log, selector, i) && !IsWait(e) && !(e.Checked? && e.selector == selector)
  {
    var longer := log + [e];
    assert longer[i] == log[i] && longer[|log|] == e;
    if FreshFrom(longer, selector, i) {
      forall j | i < j < |log| ensures !IsWait(log[j]) && !(log[j].Checked? && log[j].selector == selector) {
        assert longer[j] == log[j];
      }
    }
  }

  /** In other words: a negative look with neither a wait nor another look after it. */
  lemma {:induction false} FreshMeans(log: seq<Event>, selector: Selector)
    ensures Fresh(log, selector) <==> exists i: nat :: FreshFrom(log, selector, i)
    decreases |log|
  {
    if log != [] {
      var earlier, last := log[..|log| - 1], log[|log| - 1];
      assert log == earlier + [last];
      FreshMeans(earlier, selector);
      forall i: nat | i < |earlier|
        ensures FreshFrom(log, selector, i) <==>
                  FreshFrom(earlier, selector, i) && !IsWait(last) && !(last.Checked? && last.selector == selector)
      {
        FreshFromStep(earlier, last, selector, i);
      }
      assert FreshFrom(log, selector, |earlier|) <==> last == Checked(selector, false);
    }
  }

  class Tab {
    const slowest: Millis
    const replies: nat -> Reply
    var asked: nat
    var now: nat
    var log: seq<Event>

    constructor (slowest: Millis, replies: nat -> Reply)
      ensures now == 0 && log == [] && asked == 0 && this.slowest == slowest && this.replies == replies
    {
      this.slowest := slowest;
      this.replies := replies;
      asked, now, log := 0, 0, [];
    }

    /** A round trip to the browser. */
    method Call() returns (reply: Reply)
      modifies this
      ensures old(now) < now <= old(now) + slowest && log == old(log) && asked == old(asked) + 1
      ensures reply.cost == 0 ==> now == old(now) + 1
      ensures reply == replies(old(asked))
    {
      reply := replies(asked);
      now := now + (if reply.cost < 1 then 1 else if reply.cost > slowest then slowest else reply.cost);
      asked := asked + 1;
    }

    /** A look at something in memory. */
    method Read() returns (reply: Reply)
      modifies this
      ensures now == old(now) && log == old(log) && asked == old(asked) + 1
      ensures reply == replies(old(asked))
    {
      reply := replies(asked);
      asked := asked + 1;
    }

    method CheckSelector(selector: Selector) returns (r: Result<bool, Error>)
      modifies this
      ensures old(now) < now <= old(now) + slowest
      ensures log == old(log) + [if r.Ok? then Checked(selector, r.value) else CheckBroke]
      ensures r.Err? ==> r.error == Broken
      ensures asked == old(asked) + 1
      ensures var reply := replies(old(asked)); r == if reply.broken then Err(Broken) else Ok(reply.found)
      ensures r.Ok? ==> Fresh(log, selector) == !r.value
      ensures forall s :: s != selector ==> Fresh(log, s) == Fresh(old(log), s)
    {
      var reply := Call();
      r := if reply.broken then Err(Broken) else Ok(reply.found);
      FreshStep(log, if r.Ok? then Checked(selector, r.value) else CheckBroke);
      log := log + [if r.Ok? then Checked(selector, r.value) else CheckBroke];
    }

    method ReadStatus() returns (status: Option<nat>)
      modifies this
      ensures old(now) < now <= old(now) + slowest
      ensures log == old(log) + [StatusRead(status)]
      ensures status == replies(old(asked)).status && asked == old(asked) + 1
      ensures replies(old(asked)).cost == 0 ==> now == old(now) + 1
      ensures forall s :: Fresh(log, s) == Fresh(old(log), s)
    {
      var reply := Call();
      status := reply.status;
      FreshStep(log, StatusRead(status));
      log := log + [StatusRead(status)];
    }

    /** A script that resolves within `atMost`. */
    method WaitInPage(atMost: nat)
      modifies this
      ensures old(now) < now <= old(now) + atMost + slowest
      ensures log == old(log) + [WaitedInPage] && asked == old(asked) + 2
      ensures replies(old(asked)).cost == replies(old(asked) + 1).cost == 0 ==> now == old(now) + 1
    {
      var reply := Call();
      var longer := Read();
      now := now + (if longer.cost < atMost then longer.cost else atMost);
      log := log + [WaitedInPage];
    }

    method Sleep(span: nat)
      modifies this
      ensures old(now) + span <= now <= old(now) + span + slowest
      ensures log == old(log) + [Slept] && asked == old(asked) + 1
      ensures replies(old(asked)).cost == 0 ==> now == old(now) + span
    {
      var overrun := Read();
      now := now + span + (if overrun.cost < slowest then overrun.cost else slowest);
      log := log + [Slept];
    }

    method IsCancelled() returns (cancelled: bool)
      modifies this
      ensures now == old(now) && log == old(log)
      ensures cancelled == replies(old(asked)).cancelled && asked == old(asked) + 1
    {
      var reply := Read();
      cancelled := reply.cancelled;
    }

    method IdleState() returns (idle: Idle)
      modifies this
      ensures now == old(now) && log == old(log) + [IdleRead(idle)]
      ensures idle == replies(old(asked)).idle && asked == old(asked) + 1
      ensures forall s :: Fresh(log, s) == Fresh(old(log), s)
    {
      var reply := Read();
      idle := reply.idle;
      FreshStep(log, IdleRead(idle));
      log := log + [IdleRead(idle)];
    }

    /** The response observer's latest document. */
    method Latest() returns (latest: Option<Snapshot>)
      modifies this
      ensures now == old(now) && log == old(log) + [Looked(latest)]
      ensures latest == replies(old(asked)).latest && asked == old(asked) + 1
    {
      var reply := Read();
      latest := reply.latest;
      log := log + [Looked(latest)];
    }
  }
}
