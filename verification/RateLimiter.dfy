/** The limit on how many diagnostics reports a worker logs per minute. */
module RateLimiter {
  import opened Wrappers

  /** Sixty seconds, in milliseconds. */
  const Window: nat := 60_000

  datatype State = State(windowStart: nat, used: nat, suppressed: nat)

  /** The clock is read once to compare with the window and, when the window is over, once more for
      its new start. */
  datatype Call = Call(checked: nat, restarted: nat)

  function Opened(s: State, call: Call): State {
    if call.checked - s.windowStart >= Window then s.(windowStart := call.restarted, used := 0) else s
  }

  function Acquired(maxPerMinute: nat, s: State, call: Call): (State, Option<nat>) {
    if maxPerMinute == 0 then (s, Some(0))
    else
      var open := Opened(s, call);
      if open.used >= maxPerMinute then (open.(suppressed := open.suppressed + 1), None)
      else (open.(used := open.used + 1, suppressed := 0), Some(open.suppressed))
  }

  class DiagnosticsLimiter {
    const maxPerMinute: nat
    var state: State

    constructor (maxPerMinute: nat, now: nat)
      ensures this.maxPerMinute == maxPerMinute && state == State(now, 0, 0)
    {
      this.maxPerMinute := maxPerMinute;
      state := State(now, 0, 0);
    }

    method TryAcquire(call: Call) returns (reported: Option<nat>)
      modifies this
      ensures (state, reported) == Acquired(maxPerMinute, old(state), call)
    {
      if maxPerMinute == 0 { return Some(0); }
      if call.checked - state.windowStart >= Window {
        state := state.(windowStart := call.restarted);
        state := state.(used := 0);
      }
      if state.used >= maxPerMinute {
        state := state.(suppressed := state.suppressed + 1);
        return None;
      }
      state := state.(used := state.used + 1);
      reported := Some(state.suppressed);
      state := state.(suppressed := 0);
    }
  }

  // ----- over a whole run -----

  predicate InOrder(now: nat, calls: seq<Call>) {
    && (forall i :: 0 <= i < |calls| ==> now <= calls[i].checked <= calls[i].restarted)
    && (forall i :: 0 < i < |calls| ==> calls[i - 1].restarted <= calls[i].checked)
  }

  function After(maxPerMinute: nat, now: nat, calls: seq<Call>): State {
    if calls == [] then State(now, 0, 0)
    else Acquired(maxPerMinute, After(maxPerMinute, now, calls[..|calls| - 1]), calls[|calls| - 1]).0
  }

  function ReportedLast(maxPerMinute: nat, now: nat, calls: seq<Call>): Option<nat>
    requires calls != []
  {
    Acquired(maxPerMinute, After(maxPerMinute, now, calls[..|calls| - 1]), calls[|calls| - 1]).1
  }

  /** Reports let through by calls made in [from, from + 60 s). */
  function AllowedWithin(maxPerMinute: nat, now: nat, calls: seq<Call>, from: int): nat {
    if calls == [] then 0
    else
      AllowedWithin(maxPerMinute, now, calls[..|calls| - 1], from)
      + (if ReportedLast(maxPerMinute, now, calls).Some? && from <= calls[|calls| - 1].checked < from + 60_000 then 1 else 0)
  }

  /** Reports let through by calls that ended after `from`. */
  function AllowedSince(maxPerMinute: nat, now: nat, calls: seq<Call>, from: int): nat {
    if calls == [] then 0
    else
      AllowedSince(maxPerMinute, now, calls[..|calls| - 1], from)
      + (if ReportedLast(maxPerMinute, now, calls).Some? && calls[|calls| - 1].restarted > from then 1 else 0)
  }

  function SuppressedCalls(maxPerMinute: nat, now: nat, calls: seq<Call>): nat {
    if calls == [] then 0
    else
      SuppressedCalls(maxPerMinute, now, calls[..|calls| - 1])
      + (if ReportedLast(maxPerMinute, now, calls).None? then 1 else 0)
  }

  function SuppressedReported(maxPerMinute: nat, now: nat, calls: seq<Call>): nat {
    if calls == [] then 0
    else
      SuppressedReported(maxPerMinute, now, calls[..|calls| - 1])
      + (match ReportedLast(maxPerMinute, now, calls) case Some(n) => n case None => 0)
  }

  /** When the call that opened the current window was made; the window itself starts a little
      later. */
  function OpenedAt(maxPerMinute: nat, now: nat, calls: seq<Call>): nat {
    if calls == [] then now
    else
      var before := After(maxPerMinute, now, calls[..|calls| - 1]);
      if calls[|calls| - 1].checked - before.windowStart >= Window then calls[|calls| - 1].checked
      else OpenedAt(maxPerMinute, now, calls[..|calls| - 1])
  }

  lemma {:induction false} WindowInvariant(maxPerMinute: nat, now: nat, calls: seq<Call>, from: int)
    requires maxPerMinute > 0 && InOrder(now, calls)
    ensures var s := After(maxPerMinute, now, calls);
            var start := OpenedAt(maxPerMinute, now, calls);
            var allowed := AllowedWithin(maxPerMinute, now, calls, from);
            && s.used <= maxPerMinute && start <= s.windowStart
            && (calls == [] ==> allowed == 0 && s.windowStart == now)
            && (calls != [] ==> s.windowStart <= calls[|calls| - 1].restarted)
            && (allowed > 0 ==> calls != [] && from <= calls[|calls| - 1].checked)
            && allowed <= (if start < from then s.used
                           else if start < from + Window then maxPerMinute + s.used
                           else 2 * maxPerMinute)
  {
    if calls != [] {
      WindowInvariant(maxPerMinute, now, calls[..|calls| - 1], from);
    }
  }

  /** No sixty seconds see more than twice the limit. */
  lemma AtMostTwiceTheLimit(maxPerMinute: nat, now: nat, calls: seq<Call>, from: int)
    requires maxPerMinute > 0 && InOrder(now, calls)
    ensures AllowedWithin(maxPerMinute, now, calls, from) <= 2 * maxPerMinute
  {
    WindowInvariant(maxPerMinute, now, calls, from);
  }

  lemma {:induction false} UsedWereAllowed(maxPerMinute: nat, now: nat, calls: seq<Call>, from: int)
    requires maxPerMinute > 0 && InOrder(now, calls)
    ensures var s := After(maxPerMinute, now, calls);
            s.windowStart > from ==> s.used <= AllowedSince(maxPerMinute, now, calls, from)
  {
    if calls != [] {
      var earlier := calls[..|calls| - 1];
      UsedWereAllowed(maxPerMinute, now, earlier, from);
      WindowInvariant(maxPerMinute, now, earlier, from);
    }
  }

  /** And nothing is held back without cause: a suppressed call comes after a full quota of reports
      within the sixty seconds before it. */
  lemma SuppressedOnlyWhenFull(maxPerMinute: nat, now: nat, calls: seq<Call>)
    requires InOrder(now, calls) && calls != [] && ReportedLast(maxPerMinute, now, calls).None?
    ensures maxPerMinute > 0
    ensures AllowedSince(maxPerMinute, now, calls[..|calls| - 1], calls[|calls| - 1].checked - 60_000) >= maxPerMinute
  {
    UsedWereAllowed(maxPerMinute, now, calls[..|calls| - 1], calls[|calls| - 1].checked - Window);
  }

  /** Every suppressed call is reported exactly once or still waiting to be. */
  lemma {:induction false} SuppressedAreReported(maxPerMinute: nat, now: nat, calls: seq<Call>)
    ensures SuppressedReported(maxPerMinute, now, calls) + After(maxPerMinute, now, calls).suppressed
         == SuppressedCalls(maxPerMinute, now, calls)
  {
    if calls != [] { SuppressedAreReported(maxPerMinute, now, calls[..|calls| - 1]); }
  }

  /** `k` calls at the same instant. */
  function Burst(at: nat, k: nat): seq<Call> {
    if k == 0 then [] else Burst(at, k - 1) + [Call(at, at)]
  }

  lemma {:induction false} BurstIsAtOnce(at: nat, k: nat)
    ensures |Burst(at, k)| == k && forall i :: 0 <= i < k ==> Burst(at, k)[i] == Call(at, at)
  {
    if k > 0 { BurstIsAtOnce(at, k - 1); }
  }

  lemma {:induction false} EarlyBurst(maxPerMinute: nat, k: nat)
    requires 0 < maxPerMinute && k <= maxPerMinute
    ensures After(maxPerMinute, 0, Burst(Window - 1, k)) == State(0, k, 0)
    ensures AllowedWithin(maxPerMinute, 0, Burst(Window - 1, k), Window - 1) == k
  {
    if k > 0 {
      EarlyBurst(maxPerMinute, k - 1);
      var calls := Burst(Window - 1, k);
      assert calls[..|calls| - 1] == Burst(Window - 1, k - 1);
    }
  }

  lemma {:induction false} LateBurst(maxPerMinute: nat, k: nat)
    requires 0 < maxPerMinute && k <= maxPerMinute
    ensures var calls := Burst(Window - 1, maxPerMinute) + Burst(Window, k);
            && After(maxPerMinute, 0, calls) == (if k == 0 then State(0, maxPerMinute, 0) else State(Window, k, 0))
            && AllowedWithin(maxPerMinute, 0, calls, Window - 1) == maxPerMinute + k
  {
    var calls := Burst(Window - 1, maxPerMinute) + Burst(Window, k);
    if k == 0 {
      EarlyBurst(maxPerMinute, maxPerMinute);
      assert calls == Burst(Window - 1, maxPerMinute);
    } else {
      LateBurst(maxPerMinute, k - 1);
      assert calls[..|calls| - 1] == Burst(Window - 1, maxPerMinute) + Burst(Window, k - 1);
    }
  }

  /** Twice the limit is reached, whatever the limit: a full quota at the end of one window, another at
      the start of the next. */
  lemma TwiceTheLimitIsReached(maxPerMinute: nat)
    requires maxPerMinute > 0
    ensures exists calls, from: int ::
              InOrder(0, calls) && AllowedWithin(maxPerMinute, 0, calls, from) == 2 * maxPerMinute
  {
    var calls := Burst(Window - 1, maxPerMinute) + Burst(Window, maxPerMinute);
    LateBurst(maxPerMinute, maxPerMinute);
    BurstIsAtOnce(Window - 1, maxPerMinute);
    BurstIsAtOnce(Window, maxPerMinute);
    assert InOrder(0, calls) && AllowedWithin(maxPerMinute, 0, calls, Window - 1) == 2 * maxPerMinute;
  }
}
