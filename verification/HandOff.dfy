/** The one-shot hand-off between a blocking browser call and the caller that waits for it: the call
    runs on its own thread, the waiter gives up after a timeout, and what the call created must end
    up either with the caller or in the clean-up. */
module HandOff {
  import opened Wrappers

  datatype Answer<V> = Created(value: V) | Refused

  datatype Outcome<V> = Answered(answer: Answer<V>) | Panicked | TimedOut

  datatype Blocking<V> =
    | Calling                       // inside the browser call
    | Sending(answer: Answer<V>)    // the call answered
    | Orphan(value: V)              // the send failed: the value is nobody's
    | Gone

  datatype Waiter<V> =
    | Waiting                       // the only point at which the caller may drop the future
    | Expired                       // the timeout fired, the channel is still open
    | Looking                       // the channel is closed, one look is left
    | Returned(outcome: Outcome<V>)
    | Dropped

  datatype State<V> = State(
    blocking: Blocking<V>,
    waiter: Waiter<V>,
    slot: Option<Answer<V>>,        // what was sent and not yet taken
    open: bool,                     // the receiving half still accepts a send
    sender: bool,                   // the sending half still exists
    created: seq<V>,
    delivered: seq<V>,
    cleaned: seq<V>,
    lost: seq<V>)

  datatype Step<V> =
    | Answers(answer: Answer<V>) | Panics | Send | CleanUp          // the blocking thread
    | Receive | TimeOut | Close | FinalLook                         // the waiter
    | DropWaiter                                                    // its caller

  function Start<V>(): State<V> {
    State(Calling, Waiting, None, true, true, [], [], [], [])
  }

  function Values<V>(answer: Answer<V>): seq<V> {
    if answer.Created? then [answer.value] else []
  }

  predicate Enabled<V>(s: State<V>, step: Step<V>) {
    match step
    case Answers(_) => s.blocking.Calling?
    case Panics => s.blocking.Calling?
    case Send => s.blocking.Sending?
    case CleanUp => s.blocking.Orphan?
    case Receive => s.waiter.Waiting? && (s.slot.Some? || !s.sender)
    case TimeOut => s.waiter.Waiting?
    case Close => s.waiter.Expired?
    case FinalLook => s.waiter.Looking?
    case DropWaiter => s.waiter.Waiting?
  }

  function Take<V>(s: State<V>, otherwise: Outcome<V>): State<V> {
    match s.slot
    case Some(answer) =>
      s.(slot := None, open := false, waiter := Returned(Answered(answer)), delivered := s.delivered + Values(answer))
    case None => s.(open := false, waiter := Returned(otherwise))
  }

  function Next<V>(s: State<V>, step: Step<V>): State<V>
    requires Enabled(s, step)
  {
    match step
    case Answers(answer) => s.(blocking := Sending(answer), created := s.created + Values(answer))
    case Panics => s.(blocking := Gone, sender := false)
    case Send =>
      if s.open then s.(blocking := Gone, sender := false, slot := Some(s.blocking.answer))
      else if s.blocking.answer.Created? then s.(blocking := Orphan(s.blocking.answer.value), sender := false)
      else s.(blocking := Gone, sender := false)
    case CleanUp => s.(blocking := Gone, cleaned := s.cleaned + [s.blocking.value])
    case Receive => Take(s, Panicked)
    case TimeOut => s.(waiter := Expired)
    case Close => s.(waiter := Looking, open := false)
    case FinalLook => Take(s, TimedOut)
    case DropWaiter =>
      s.(waiter := Dropped, open := false, slot := None,
         lost := s.lost + (if s.slot.Some? then Values(s.slot.value) else []))
  }

  /** The steps can be taken in this order. */
  predicate Possible<V>(s: State<V>, steps: seq<Step<V>>)
    decreases |steps|
  {
    steps == [] || (Enabled(s, steps[0]) && Possible(Next(s, steps[0]), steps[1..]))
  }

  function Run<V>(s: State<V>, steps: seq<Step<V>>): State<V>
    requires Possible(s, steps)
    decreases |steps|
  {
    if steps == [] then s else Run(Next(s, steps[0]), steps[1..])
  }

  // ----- where a created value is -----

  function WithTheThread<V>(s: State<V>): seq<V> {
    match s.blocking
    case Sending(answer) => Values(answer)
    case Orphan(value) => [value]
    case _ => []
  }

  function InTheSlot<V>(s: State<V>): seq<V> {
    if s.slot.Some? then Values(s.slot.value) else []
  }

  /** The one value created is in exactly one of these places. */
  ghost predicate InOnePlace<V>(s: State<V>) {
    && |s.created| <= 1
    && |WithTheThread(s)| + |InTheSlot(s)| + |s.delivered| + |s.cleaned| + |s.lost| == |s.created|
    && (WithTheThread(s) == [] || WithTheThread(s) == s.created)
    && (InTheSlot(s) == [] || InTheSlot(s) == s.created)
    && (s.delivered == [] || s.delivered == s.created)
    && (s.cleaned == [] || s.cleaned == s.created)
    && (s.lost == [] || s.lost == s.created)
  }

  ghost predicate Conserved<V>(s: State<V>) {
    && InOnePlace(s)
    && (s.blocking.Calling? || s.blocking == Sending(Refused) || s.slot == Some(Refused) ==> s.created == [])
    && (s.open <==> s.waiter.Waiting? || s.waiter.Expired?)
    && (s.sender <==> s.blocking.Calling? || s.blocking.Sending?)
    && (s.slot.Some? ==> !s.sender && s.blocking.Gone? && !s.waiter.Returned? && !s.waiter.Dropped?)
    && (s.lost != [] ==> s.waiter.Dropped?)
    && s.delivered == (if s.waiter.Returned? && s.waiter.outcome.Answered? then Values(s.waiter.outcome.answer) else [])
  }

  lemma StepConserves<V>(s: State<V>, step: Step<V>)
    requires Conserved(s) && Enabled(s, step)
    ensures Conserved(Next(s, step))
  {
  }

  lemma {:induction false} RunConserves<V>(s: State<V>, steps: seq<Step<V>>)
    requires Conserved(s) && Possible(s, steps)
    ensures Conserved(Run(s, steps))
    decreases |steps|
  {
    if steps != [] {
      StepConserves(s, steps[0]);
      RunConserves(Next(s, steps[0]), steps[1..]);
    }
  }

  // ----- exactly once -----

  /** In every interleaving in which the waiter runs to completion, what the call created was
      either returned to the caller or cleaned up: never both, never neither. */
  lemma ExactlyOnce<V>(steps: seq<Step<V>>)
    requires Possible(Start<V>(), steps)
    ensures var s := Run(Start<V>(), steps);
            s.blocking.Gone? && s.waiter.Returned? ==>
              && (s.created == [] ==> s.delivered == [] && s.cleaned == [])
              && (s.created != [] ==>
                    && |s.created| == 1
                    && ((s.delivered == s.created && s.cleaned == []) || (s.delivered == [] && s.cleaned == s.created)))
              && (s.delivered != [] <==> s.created != [] && s.waiter.outcome == Answered(Created(s.created[0])))
  {
    RunConserves(Start<V>(), steps);
  }

  /** A waiter dropped mid-wait does not always hand the value to the clean-up: what had been sent
      by then is dropped with the channel. That is the only way to lose one. */
  lemma DroppedWaiterLosesIff<V>(before: seq<Step<V>>, after: seq<Step<V>>)
    requires Possible(Start<V>(), before) && Enabled(Run(Start<V>(), before), DropWaiter)
    requires Possible(Next(Run(Start<V>(), before), DropWaiter), after)
    ensures var s := Run(Start<V>(), before);
            var t := Run(Next(s, DropWaiter), after);
            && t.delivered == []
            && (t.blocking.Gone? && t.created != [] ==>
                  && (t.cleaned == t.created <==> !s.slot.Some?)
                  && (t.cleaned == [] && t.lost == t.created <==> s.slot.Some?))
  {
    var s := Run(Start<V>(), before);
    RunConserves(Start<V>(), before);
    StepConserves(s, DropWaiter);
    var u := Next(s, DropWaiter);
    RunConserves(u, after);
    AfterTheDrop(u, after);
  }

  lemma {:induction false} AfterTheDrop<V>(s: State<V>, steps: seq<Step<V>>)
    requires Possible(s, steps) && s.waiter.Dropped? && Conserved(s)
    ensures var t := Run(s, steps);
            && t.waiter.Dropped? && t.lost == s.lost
            && (!s.sender && !s.blocking.Orphan? ==> t == s)
    decreases |steps|
  {
    if steps != [] {
      StepConserves(s, steps[0]);
      AfterTheDrop(Next(s, steps[0]), steps[1..]);
    }
  }

  // ----- what the caller is told -----

  /** The answer was in the channel before the waiter closed it. */
  ghost predicate SentInTime<V>(steps: seq<Step<V>>) {
    exists j :: 0 <= j < |steps| && SendsAt(steps, j)
  }

  ghost predicate SendsAt<V>(steps: seq<Step<V>>, j: nat)
    requires j < |steps|
  {
    steps[j] == Send && Close !in steps[..j]
  }

  /** The steps taken so far, seen from the blocking thread. */
  ghost predicate ThreadHistory<V(!new)>(steps: seq<Step<V>>, s: State<V>) {
    && (s.blocking.Calling? <==> Panics !in steps && forall a :: Answers(a) !in steps)
    && (Send in steps ==> !s.sender && (s.blocking.Gone? || s.blocking.Orphan?))
    && (s.blocking.Sending? ==> Send !in steps && Answers(s.blocking.answer) in steps)
    && (Panics in steps ==> s.blocking.Gone? && Send !in steps && forall a :: Answers(a) !in steps)
    && (forall a, b :: Answers(a) in steps && Answers(b) in steps ==> a == b)
    && (!s.sender <==> Panics in steps || Send in steps)
  }

  /** And from the waiter. */
  ghost predicate WaiterHistory<V>(steps: seq<Step<V>>, s: State<V>) {
    && (s.waiter.Waiting? ==> TimeOut !in steps && Receive !in steps && FinalLook !in steps && Close !in steps)
    && (s.waiter.Expired? || s.waiter.Looking? ==> TimeOut in steps && Receive !in steps && FinalLook !in steps)
    && (s.waiter.Looking? || FinalLook in steps <==> Close in steps)
    && (s.waiter.Expired? ==> Close !in steps)
    && (s.waiter.Dropped? ==> TimeOut !in steps && Receive !in steps && FinalLook !in steps)
    && (Receive in steps ==> TimeOut !in steps && FinalLook !in steps
                             && s.waiter.Returned? && s.waiter.outcome != TimedOut)
    && (FinalLook in steps ==> TimeOut in steps && s.waiter.Returned? && s.waiter.outcome != Panicked)
    && (s.waiter.Returned? ==> Receive in steps || FinalLook in steps)
  }

  /** And from the channel. */
  ghost predicate SlotHistory<V>(steps: seq<Step<V>>, s: State<V>) {
    && (s.slot.Some? ==> SentInTime(steps) && Answers(s.slot.value) in steps)
    && (SentInTime(steps) ==> s.slot.Some? || s.waiter.Dropped? || (s.waiter.Returned? && s.waiter.outcome.Answered?))
    && (s.waiter == Returned(Panicked) ==> Panics in steps)
    && (s.waiter == Returned(TimedOut) ==> !SentInTime(steps))
    && (s.waiter.Returned? && s.waiter.outcome.Answered? ==> SentInTime(steps) && Answers(s.waiter.outcome.answer) in steps)
  }

  ghost predicate History<V(!new)>(steps: seq<Step<V>>, s: State<V>) {
    Conserved(s) && ThreadHistory(steps, s) && WaiterHistory(steps, s) && SlotHistory(steps, s)
  }

  lemma SentStep<V>(steps: seq<Step<V>>, e: Step<V>)
    ensures SentInTime(steps + [e]) <==> SentInTime(steps) || (e == Send && Close !in steps)
  {
    var longer := steps + [e];
    forall j: nat | j < |steps| ensures SendsAt(longer, j) <==> SendsAt(steps, j) {
      assert longer[..j] == steps[..j];
    }
    assert longer[..|steps|] == steps;
    assert SendsAt(longer, |steps|) <==> e == Send && Close !in steps;
  }

  lemma SentWasSent<V>(steps: seq<Step<V>>)
    ensures SentInTime(steps) ==> Send in steps
    ensures Send in steps && Close !in steps ==> SentInTime(steps)
  {
    if Send in steps && Close !in steps {
      var j :| 0 <= j < |steps| && steps[j] == Send;
      assert SendsAt(steps, j);
    }
  }

  lemma ThreadStep<V(!new)>(steps: seq<Step<V>>, s: State<V>, e: Step<V>)
    requires History(steps, s) && Enabled(s, e)
    ensures ThreadHistory(steps + [e], Next(s, e))
  {
  }

  lemma WaiterStep<V(!new)>(steps: seq<Step<V>>, s: State<V>, e: Step<V>)
    requires History(steps, s) && Enabled(s, e)
    ensures WaiterHistory(steps + [e], Next(s, e))
  {
  }

  lemma SlotStep<V(!new)>(steps: seq<Step<V>>, s: State<V>, e: Step<V>)
    requires History(steps, s) && Enabled(s, e)
    ensures SlotHistory(steps + [e], Next(s, e))
  {
    SentStep(steps, e);
    SentWasSent(steps);
  }

  lemma {:induction false} RunAppend<V>(s: State<V>, steps: seq<Step<V>>, e: Step<V>)
    requires Possible(s, steps + [e])
    ensures Possible(s, steps) && Enabled(Run(s, steps), e) && Run(s, steps + [e]) == Next(Run(s, steps), e)
    decreases |steps|
  {
    if steps == [] {
      assert steps + [e] == [e];
    } else {
      assert (steps + [e])[1..] == steps[1..] + [e];
      RunAppend(Next(s, steps[0]), steps[1..], e);
    }
  }

  lemma {:induction false} RunHistory<V(!new)>(steps: seq<Step<V>>)
    requires Possible(Start<V>(), steps)
    ensures History(steps, Run(Start<V>(), steps))
    decreases |steps|
  {
    if steps != [] {
      var earlier, e := steps[..|steps| - 1], steps[|steps| - 1];
      assert steps == earlier + [e];
      RunAppend(Start<V>(), earlier, e);
      RunHistory(earlier);
      var s := Run(Start<V>(), earlier);
      StepConserves(s, e);
      ThreadStep(earlier, s, e);
      WaiterStep(earlier, s, e);
      SlotStep(earlier, s, e);
    }
  }

  /** What the caller is told is what happened. It hears of a panic exactly when the call panicked and no
      timeout came before that was noticed; of a timeout exactly when it looked one last time after one
      and nothing had been sent before the channel was closed; and of an answer exactly when that was the
      call's answer, sent by then and looked for. */
  lemma ToldWhatHappened<V(!new)>(steps: seq<Step<V>>)
    requires Possible(Start<V>(), steps)
    ensures var s := Run(Start<V>(), steps);
            && (s.waiter == Returned(Panicked) <==> Panics in steps && Receive in steps && TimeOut !in steps)
            && (s.waiter == Returned(TimedOut) <==> TimeOut in steps && FinalLook in steps && !SentInTime(steps))
            && (forall a :: s.waiter == Returned(Answered(a)) <==>
                              Answers(a) in steps && SentInTime(steps) && (Receive in steps || FinalLook in steps))
  {
    RunHistory(steps);
    SentWasSent(steps);
  }

  /** A waiter is woken as soon as there is something to tell it: the answer was sent, or never will be. */
  lemma WokenIff<V(!new)>(steps: seq<Step<V>>)
    requires Possible(Start<V>(), steps) && Run(Start<V>(), steps).waiter.Waiting?
    ensures Enabled(Run(Start<V>(), steps), Receive) <==> Panics in steps || Send in steps
  {
    RunHistory(steps);
  }

  /** The race of an answer with the timeout, in every order: sent before the channel is closed it is
      returned, even if the timeout came first; sent after that, it is cleaned up and the caller hears of
      the timeout. */
  lemma LateAnswers<V>(value: V)
    ensures var start, answer := Start<V>(), Answers(Created(value));
            && var before, between, after :=
                 [answer, Send, TimeOut, Close, FinalLook],
                 [TimeOut, answer, Send, Close, FinalLook],
                 [TimeOut, answer, Close, Send, FinalLook, CleanUp];
               && Possible(start, before) && Possible(start, between) && Possible(start, after)
               && Run(start, before).delivered == [value] && Run(start, between).delivered == [value]
               && Run(start, after).waiter == Returned(TimedOut) && Run(start, after).cleaned == [value]
  {
    var start, answer := Start<V>(), Answers(Created(value));
    var waited := Next(start, TimeOut);
    FiveSteps(start, answer, Send, TimeOut, Close, FinalLook);
    FiveSteps(start, TimeOut, answer, Send, Close, FinalLook);
    var steps := [answer, Close, Send, FinalLook, CleanUp];
    FiveSteps(waited, answer, Close, Send, FinalLook, CleanUp);
    RunCons(start, TimeOut, steps);
    assert [TimeOut] + steps == [TimeOut, answer, Close, Send, FinalLook, CleanUp];
  }

  lemma RunCons<V>(s: State<V>, step: Step<V>, rest: seq<Step<V>>)
    requires Enabled(s, step) && Possible(Next(s, step), rest)
    ensures Possible(s, [step] + rest) && Run(s, [step] + rest) == Run(Next(s, step), rest)
  {
    assert ([step] + rest)[1..] == rest;
  }

  lemma FiveSteps<V>(s: State<V>, a: Step<V>, b: Step<V>, c: Step<V>, d: Step<V>, e: Step<V>)
    requires Enabled(s, a) && Enabled(Next(s, a), b)
    requires var u := Next(Next(s, a), b); Enabled(u, c) && Enabled(Next(u, c), d) && Enabled(Next(Next(u, c), d), e)
    ensures Possible(s, [a, b, c, d, e])
    ensures Run(s, [a, b, c, d, e]) == Next(Next(Next(Next(Next(s, a), b), c), d), e)
  {
    var u := Next(Next(s, a), b);
    var v := Next(u, c);
    RunCons(Next(v, d), e, []);
    assert [e] + [] == [e];
    RunCons(v, d, [e]);
    assert [d] + [e] == [d, e];
    RunCons(u, c, [d, e]);
    assert [c] + [d, e] == [c, d, e];
    RunCons(Next(s, a), b, [c, d, e]);
    assert [b] + [c, d, e] == [b, c, d, e];
    RunCons(s, a, [b, c, d, e]);
    assert [a] + [b, c, d, e] == [a, b, c, d, e];
  }

  // ----- and always -----

  function Remaining<V>(s: State<V>): nat {
    (match s.blocking case Calling => 3 case Sending(_) => 2 case Orphan(_) => 1 case Gone => 0)
    + (match s.waiter case Waiting => 3 case Expired => 2 case Looking => 1 case _ => 0)
  }

  /** Nothing is left to do. */
  ghost predicate Finished<V(!new)>(s: State<V>) { forall step :: !Enabled(s, step) }

  /** A run that cannot go on has handed the value over: neither side is stuck half-way, and what was
      created has been returned or cleaned up, unless the caller dropped the wait after it was sent. */
  lemma FinishedRunHandsOver<V(!new)>(steps: seq<Step<V>>)
    requires Possible(Start<V>(), steps) && Finished(Run(Start<V>(), steps))
    ensures var s := Run(Start<V>(), steps);
            && s.blocking.Gone? && (s.waiter.Returned? || s.waiter.Dropped?)
            && (s.created != [] && s.lost == [] ==>
                  (s.delivered == s.created && s.cleaned == []) || (s.delivered == [] && s.cleaned == s.created))
            && (s.lost != [] ==> s.waiter.Dropped?)
  {
    RunConserves(Start<V>(), steps);
    var s := Run(Start<V>(), steps);
    assert !Enabled(s, Panics) && !Enabled(s, Send) && !Enabled(s, CleanUp);
    assert !Enabled(s, TimeOut) && !Enabled(s, Close) && !Enabled(s, FinalLook);
  }

  lemma {:induction false} EveryRunEnds<V>(s: State<V>, steps: seq<Step<V>>)
    requires Possible(s, steps)
    ensures |steps| + Remaining(Run(s, steps)) <= Remaining(s)
    decreases |steps|
  {
    if steps != [] { EveryRunEnds(Next(s, steps[0]), steps[1..]); }
  }
}
