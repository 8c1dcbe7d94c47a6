/** The tick counter of the programmable interval timer, and waiting for it to advance. */
module Pit {
  import opened Common

  type Count = t: nat | t < 0x1_0000_0000

  /** MS_TO_TICKS, in 32-bit arithmetic. */
  function MsToTicks(ms: Count, freq: Count): (n: Count) {
    freq * ms % WORD / 1000
  }

  /** It is the number of ticks meant exactly when the product fits into 32 bits. */
  lemma MsToTicksExact(ms: Count, freq: Count)
    ensures MsToTicks(ms, freq) == freq * ms / 1000 <==> freq * ms < WORD
  {
    WrappedQuotient(freq * ms);
  }

  lemma WrappedQuotient(x: nat)
    ensures x % WORD / 1000 == x / 1000 <==> x < WORD
  {
    if x >= WORD {
      Wraps(x);
      Quotient(x % WORD, x - 1000);
    }
  }

  lemma Wraps(x: nat)
    requires x >= WORD
    ensures x % WORD <= x - WORD
  {
    assert x == x / WORD * WORD + x % WORD;
  }

  lemma Quotient(x: nat, y: nat)
    requires x <= y
    ensures x / 1000 <= y / 1000 == (y + 1000) / 1000 - 1
  {
  }

  datatype State = INVALID | UNTIL_OVERFLOW | UNTIL_TIMEOUT | TIMED_OUT

  /** pit_timed_out: the next state and the result. */
  function Poll(s: State, waitUntil: Count, ticks: Count): (State, int) {
    match s
    case UNTIL_OVERFLOW => (if waitUntil < ticks then s else UNTIL_TIMEOUT, 0)
    case UNTIL_TIMEOUT => if ticks < waitUntil then (s, 0) else (TIMED_OUT, 1)
    case TIMED_OUT => (s, 1)
    case INVALID => (s, -1)
  }

  // ----- real time: ticks counted without a bound

  /** The counter after time ticks. */
  function Ticks(time: nat): Count {
    time % WORD
  }

  function Deadline(start: nat, n: nat): Count {
    Ticks(start + n)
  }

  /** The state after polls at the given times, and the time of the first poll that reported a timeout. */
  function Polls(s: State, waitUntil: Count, times: seq<nat>): (State, Option<nat>) {
    if times == [] then (s, None)
    else
      var init := times[..|times| - 1];
      var (s1, fired) := Polls(s, waitUntil, init);
      var now := times[|times| - 1];
      var (s2, r) := Poll(s1, waitUntil, Ticks(now));
      (s2, if fired.Some? then fired else if r == 1 then Some(now) else None)
  }

  predicate Schedule(start: nat, times: seq<nat>) {
    && (forall i :: 0 <= i < |times| ==> start <= times[i])
    && (forall i, j :: 0 <= i < j < |times| ==> times[i] <= times[j])
  }

  /**
   While the timeout waits for the second condition the counter will not wrap before
   the deadline; once it has fired the deadline has passed.
   */
  predicate OnTime(s: State, start: nat, n: nat, now: nat) {
    match s
    case UNTIL_TIMEOUT => now < start + n ==> Ticks(now) + (start + n - now) == Deadline(start, n)
    case TIMED_OUT => start + n <= now
    case _ => true
  }

  lemma NoWrap(t: nat, d: nat)
    requires d < WORD && Ticks(t) <= Ticks(t + d)
    ensures Ticks(t) + d == Ticks(t + d)
  {
    assert t + d == t / WORD * WORD + (Ticks(t) + d);
  }

  /** Time going by keeps what OnTime says. */
  lemma LaterOnTime(s: State, start: nat, n: nat, now: nat, later: nat)
    requires OnTime(s, start, n, now) && now <= later
    ensures OnTime(s, start, n, later)
  {
    if s == UNTIL_TIMEOUT && later < start + n {
      assert Ticks(now) + (later - now) < WORD;
      assert Ticks(later) == Ticks(now) + (later - now) by { Forward(now, later - now); }
    }
  }

  lemma Forward(t: nat, d: nat)
    requires Ticks(t) + d < WORD
    ensures Ticks(t + d) == Ticks(t) + d
  {
    assert t + d == t / WORD * WORD + (Ticks(t) + d);
  }

  lemma PollOnTime(s: State, start: nat, n: nat, now: nat)
    requires n < WORD && start <= now && OnTime(s, start, n, now)
    ensures var (s1, r) := Poll(s, Deadline(start, n), Ticks(now));
            OnTime(s1, start, n, now) && (r == 1 ==> start + n <= now)
  {
    if s == UNTIL_OVERFLOW && now < start + n && Ticks(now) <= Deadline(start, n) {
      NoWrap(now, start + n - now);
    }
  }

  /** However it is polled, a timeout is never reported before all its ticks have elapsed. */
  lemma {:induction false} NeverEarly(start: nat, n: nat, times: seq<nat>)
    requires n < WORD && Schedule(start, times)
    ensures var (s, fired) := Polls(UNTIL_OVERFLOW, Deadline(start, n), times);
            && (times != [] ==> OnTime(s, start, n, times[|times| - 1]))
            && (times == [] ==> s == UNTIL_OVERFLOW)
            && (fired.Some? ==> start + n <= fired.value)
  {
    if times != [] {
      var init, now := times[..|times| - 1], times[|times| - 1];
      NeverEarly(start, n, init);
      var s1 := Polls(UNTIL_OVERFLOW, Deadline(start, n), init).0;
      if init != [] {
        LaterOnTime(s1, start, n, init[|init| - 1], now);
      }
      PollOnTime(s1, start, n, now);
    }
  }

  // ----- polled often enough

  /** Polls at times: counts[k] of them in tick start + k. */
  function Repeat(now: nat, count: nat): seq<nat> {
    seq(count, _ => now)
  }

  function Times(start: nat, counts: seq<nat>): seq<nat> {
    if counts == [] then []
    else Times(start, counts[..|counts| - 1]) + Repeat(start + |counts| - 1, counts[|counts| - 1])
  }

  /** The state in which tick start + k ends before the deadline: still waiting for the wrap, or past it. */
  function Waiting(start: nat, n: nat, k: nat): State {
    if Deadline(start, n) < Ticks(start + k) then UNTIL_OVERFLOW else UNTIL_TIMEOUT
  }

  lemma {:induction false} PollsAppend(s: State, w: Count, a: seq<nat>, b: seq<nat>)
    ensures var (s1, f1) := Polls(s, w, a);
            var (s2, f2) := Polls(s1, w, b);
            Polls(s, w, a + b) == (s2, if f1.Some? then f1 else f2)
  {
    if b == [] {
      assert a + b == a;
    } else {
      assert (a + b)[..|a + b| - 1] == a + b[..|b| - 1];
      PollsAppend(s, w, a, b[..|b| - 1]);
    }
  }

  lemma NoPolls(s: State, w: Count)
    ensures Polls(s, w, []) == (s, None)
  {
  }

  lemma {:induction false} ManyPolls(s: State, w: Count, now: nat, count: nat)
    requires count >= 2 && s in {UNTIL_OVERFLOW, UNTIL_TIMEOUT}
    ensures var (s1, fired) := Polls(s, w, Repeat(now, count));
            && (s == UNTIL_OVERFLOW && w < Ticks(now) ==> s1 == UNTIL_OVERFLOW && fired == None)
            && ((s == UNTIL_TIMEOUT || w >= Ticks(now)) && Ticks(now) < w ==> s1 == UNTIL_TIMEOUT && fired == None)
            && ((s == UNTIL_TIMEOUT || w >= Ticks(now)) && Ticks(now) >= w ==> s1 == TIMED_OUT && fired == Some(now))
  {
    var one, two := Repeat(now, 1), Repeat(now, 2);
    assert two[..1] == one && one[..0] == [];
    if count == 2 {
      assert Polls(s, w, one) == (Poll(s, w, Ticks(now)).0, if Poll(s, w, Ticks(now)).1 == 1 then Some(now) else None);
    } else {
      assert Repeat(now, count)[..count - 1] == Repeat(now, count - 1);
      ManyPolls(s, w, now, count - 1);
    }
  }

  /** In every tick before the deadline the counter is below it, unless the counter has yet to wrap. */
  lemma BeforeDeadline(start: nat, n: nat, k: nat)
    requires k < n < WORD
    ensures Ticks(start + k) != Deadline(start, n)
    ensures Ticks(start + k) < Deadline(start, n) && k + 1 < n ==> Ticks(start + k + 1) < Deadline(start, n)
    ensures Ticks(start + n) == Deadline(start, n)
  {
    var t, d := start + k, n - k;
    assert t + d == start + n;
    if Ticks(t) <= Ticks(t + d) {
      NoWrap(t, d);
      Forward(t, 1);
    }
  }

  /** Polled at least twice in every tick, nothing fires before the last tick. */
  lemma {:induction false} TicksBefore(start: nat, n: nat, counts: seq<nat>)
    requires n < WORD && |counts| <= n && forall k :: 0 <= k < |counts| ==> counts[k] >= 2
    ensures var (s, fired) := Polls(UNTIL_OVERFLOW, Deadline(start, n), Times(start, counts));
            && fired == None && s in {UNTIL_OVERFLOW, UNTIL_TIMEOUT}
            && (|counts| > 0 ==> s == Waiting(start, n, |counts| - 1))
            && (|counts| == 0 ==> s == UNTIL_OVERFLOW)
  {
    hide Ticks, Deadline, Polls, Repeat;
    if counts == [] {
      NoPolls(UNTIL_OVERFLOW, Deadline(start, n));
    } else {
      var init, k := counts[..|counts| - 1], |counts| - 1;
      TicksBefore(start, n, init);
      var w := Deadline(start, n);
      var s := Polls(UNTIL_OVERFLOW, w, Times(start, init)).0;
      PollsAppend(UNTIL_OVERFLOW, w, Times(start, init), Repeat(start + k, counts[k]));
      ManyPolls(s, w, start + k, counts[k]);
      BeforeDeadline(start, n, k);
      if k > 0 { BeforeDeadline(start, n, k - 1); }
    }
  }

  /**
   Polled at least twice in every tick from its start on, a timeout fires in exactly the
   tick in which pit_sleep ends.
   */
  lemma FiresExactly(start: nat, n: nat, counts: seq<nat>)
    requires n < WORD && |counts| == n + 1 && forall k :: 0 <= k < |counts| ==> counts[k] >= 2
    ensures Polls(UNTIL_OVERFLOW, Deadline(start, n), Times(start, counts)).1 == Some(start + n)
  {
    hide Ticks, Polls, Repeat, Waiting;
    var init, w := counts[..n], Deadline(start, n);
    TicksBefore(start, n, init);
    var s := Polls(UNTIL_OVERFLOW, w, Times(start, init)).0;
    PollsAppend(UNTIL_OVERFLOW, w, Times(start, init), Repeat(start + n, counts[n]));
    ManyPolls(s, w, start + n, counts[n]);
  }

  // ----- polled in any way at all

  /** Some poll found the counter at or below the value waited for. */
  ghost predicate Reached(w: Count, times: seq<nat>) {
    exists i :: 0 <= i < |times| && Ticks(times[i]) <= w
  }

  /** And a later one found it at or above it. */
  ghost predicate Passed(w: Count, times: seq<nat>) {
    exists i, j :: 0 <= i < j < |times| && Ticks(times[i]) <= w <= Ticks(times[j])
  }

  /** A timeout fires if and only if the counter is found at or below the value waited for and later at or above it. */
  lemma {:induction false} FiresIff(w: Count, times: seq<nat>)
    ensures var (s, fired) := Polls(UNTIL_OVERFLOW, w, times);
            && (fired.Some? <==> Passed(w, times))
            && (fired.Some? ==> fired.value in times)
            && s == if Passed(w, times) then TIMED_OUT else if Reached(w, times) then UNTIL_TIMEOUT else UNTIL_OVERFLOW
  {
    hide Ticks;
    if times != [] {
      var last := |times| - 1;
      var init := times[..last];
      FiresIff(w, init);
      assert forall i :: 0 <= i < last ==> times[i] == init[i];
      assert Reached(w, times) <==> Reached(w, init) || Ticks(times[last]) <= w;
      assert Passed(w, times) <==> Passed(w, init) || (Reached(w, init) && w <= Ticks(times[last]));
    }
  }

  /**
   Every poll answers 1 from the one that fires on and 0 before it, so that asking again
   after a loop that polled gives the same answer; an invalid timeout answers -1.
   */
  lemma AnswerExact(w: Count, times: seq<nat>, now: nat)
    ensures Poll(Polls(UNTIL_OVERFLOW, w, times).0, w, Ticks(now)).1 == if Passed(w, times + [now]) then 1 else 0
    ensures Poll(INVALID, w, Ticks(now)) == (INVALID, -1)
  {
    hide Ticks;
    FiresIff(w, times);
    var more := times + [now];
    assert more[..|times|] == times;
    if Passed(w, times) {
      var i, j :| 0 <= i < j < |times| && Ticks(times[i]) <= w <= Ticks(times[j]);
      assert more[i] == times[i] && more[j] == times[j];
    } else if Reached(w, times) && w <= Ticks(now) {
      var i :| 0 <= i < |times| && Ticks(times[i]) <= w;
      assert more[i] == times[i] && more[|times|] == now;
    } else {
      assert forall i :: 0 <= i < |times| ==> more[i] == times[i];
    }
  }

  /** The counter next wraps in this tick after the deadline. */
  function NextWrap(start: nat, n: nat): nat {
    (start + n) / WORD * WORD + WORD
  }

  /**
   The poll at times[i] comes before the deadline, behind the last wrap, the one at
   times[j] behind it, before the next wrap.
   */
  ghost predicate Around(start: nat, n: nat, times: seq<nat>, i: nat, j: nat)
    requires i < j < |times|
  {
    NextWrap(start, n) <= times[i] + WORD && times[i] <= start + n <= times[j] < NextWrap(start, n)
  }

  /** Where the counter stands in the ticks from the start up to the next wrap. */
  lemma Where(start: nat, n: nat, t: nat)
    requires n < WORD && start <= t < NextWrap(start, n)
    ensures Ticks(t) <= Deadline(start, n) <==> NextWrap(start, n) <= t + WORD && t <= start + n
    ensures NextWrap(start, n) <= t + WORD ==> (Deadline(start, n) <= Ticks(t) <==> start + n <= t)
  {
    var wrap := NextWrap(start, n);
    if wrap <= t + WORD {
      Round(wrap - WORD, t);
      Round(wrap - WORD, start + n);
    } else {
      Round(wrap - 2 * WORD, t);
      Round(wrap - WORD, start + n);
    }
  }

  lemma Round(base: nat, t: nat)
    requires base % WORD == 0 && base <= t < base + WORD
    ensures Ticks(t) == t - base
  {
    assert t == base / WORD * WORD + (t - base);
  }

  /**
   A timeout fires before the counter wraps the next time if and only if it is polled
   between the last wrap and the deadline, and again between the deadline and that wrap;
   otherwise it has been missed.
   */
  lemma {:induction false} FiresBeforeWrapIff(start: nat, n: nat, times: seq<nat>)
    requires n < WORD && Schedule(start, times)
    ensures var fired := Polls(UNTIL_OVERFLOW, Deadline(start, n), times).1;
            fired.Some? && fired.value < NextWrap(start, n) <==>
            exists i, j :: 0 <= i < j < |times| && Around(start, n, times, i, j)
  {
    hide Ticks, Deadline, NextWrap, Passed;
    if times == [] {
      return;
    }
    var last, w := |times| - 1, Deadline(start, n);
    if times[last] < NextWrap(start, n) {
      FiresIff(w, times);
      PassedIff(start, n, times);
      assert forall t <- times :: t <= times[last];
    } else {
      var init := times[..last];
      FiresBeforeWrapIff(start, n, init);
      assert forall i, j :: 0 <= i < j < last ==> (Around(start, n, times, i, j) <==> Around(start, n, init, i, j));
      assert forall i :: 0 <= i < last ==> !Around(start, n, times, i, last);
    }
  }

  lemma PassedIff(start: nat, n: nat, times: seq<nat>)
    requires n < WORD && Schedule(start, times) && forall t <- times :: t < NextWrap(start, n)
    ensures Passed(Deadline(start, n), times) <==> exists i, j :: 0 <= i < j < |times| && Around(start, n, times, i, j)
  {
    hide Ticks, Deadline, NextWrap;
    forall i, j | 0 <= i < j < |times|
      ensures Ticks(times[i]) <= Deadline(start, n) <= Ticks(times[j]) <==> Around(start, n, times, i, j)
    {
      assert times[i] in times && times[j] in times;
      Where(start, n, times[i]);
      Where(start, n, times[j]);
    }
  }

  // ----- the timer as it runs

  class Timeout {
    const waitUntil: Count
    var state: State

    constructor (waitUntil: Count)
      ensures this.waitUntil == waitUntil && state == UNTIL_OVERFLOW
    {
      this.waitUntil := waitUntil;
      state := UNTIL_OVERFLOW;
    }
  }

  class Timer {
    const freq: Count
    var ticks: Count
    ghost var time: nat  // ticks since the timer was started

    ghost predicate Valid()
      reads this
    {
      ticks == Ticks(time)
    }

    constructor (freq: Count)
      ensures Valid() && this.freq == freq && time == 0
    {
      this.freq := freq;
      ticks := 0;
      time := 0;
    }

    /** The part of the interrupt handler that counts. */
    method HandleInterrupt()
      requires Valid()
      modifies this
      ensures Valid() && time == old(time) + 1
    {
      ticks := (ticks + 1) % WORD;
      time := time + 1;
    }

    /** pit_sleep; every turn of a loop stands for the wait until the next interrupt. */
    method Sleep(ms: Count)
      requires Valid()
      modifies this
      ensures Valid() && time == old(time) + MsToTicks(ms, freq)
    {
      hide Ticks, MsToTicks;
      ghost var start, n := time, MsToTicks(ms, freq);
      var waitUntil := (ticks + MsToTicks(ms, freq)) % WORD;
      assert waitUntil == Deadline(start, n) by { Sum(start, n); }
      while waitUntil < ticks
        invariant Valid() && start <= time <= start + n
        decreases start + n - time
      {
        HandleInterrupt();
      }
      while ticks < waitUntil
        invariant Valid() && start <= time <= start + n
        invariant ticks <= waitUntil
        decreases start + n - time
      {
        Forward(time, 1);
        HandleInterrupt();
      }
      Ended(start, n, time);
    }

    lemma Sum(start: nat, n: nat)
      ensures (Ticks(start) + n) % WORD == Deadline(start, n)
    {
      assert start + n == start / WORD * WORD + (Ticks(start) + n);
    }

    lemma Ended(start: nat, n: nat, now: nat)
      requires n < WORD && start <= now <= start + n && Ticks(now) == Deadline(start, n)
      ensures now == start + n
    {
      NoWrap(now, start + n - now);
    }

    method MakeTimeout(ms: Count) returns (timeout: Timeout)
      requires Valid()
      ensures fresh(timeout) && timeout.state == UNTIL_OVERFLOW
      ensures timeout.waitUntil == Deadline(time, MsToTicks(ms, freq))
    {
      Sum(time, MsToTicks(ms, freq));
      timeout := new Timeout((ticks + MsToTicks(ms, freq)) % WORD);
    }

    method TimedOut(timeout: Timeout) returns (r: int)
      requires Valid()
      modifies timeout
      ensures (timeout.state, r) == Poll(old(timeout.state), timeout.waitUntil, Ticks(time))
    {
      match timeout.state {
        case UNTIL_OVERFLOW =>
          if !(timeout.waitUntil < ticks) {
            timeout.state := UNTIL_TIMEOUT;
          }
          return 0;
        case UNTIL_TIMEOUT =>
          if !(ticks < timeout.waitUntil) {
            timeout.state := TIMED_OUT;
            return 1;
          }
          return 0;
        case TIMED_OUT => return 1;
        case INVALID => return -1;
      }
    }
  }
}
