/**
Deadlines and the time to wait for them (event_poll/event_poll.c, libkc3/timespec.c,
libkc3/compare.c). Seconds and nanoseconds are 64-bit in C and taken as unbounded here;
the milliseconds handed to epoll_wait are 32-bit and wrap.
 */
module Deadline {
  const NANO := 1_000_000_000
  const MILLI := 1_000_000

  datatype Timespec = Timespec(sec: int, nsec: int)

  predicate Normalized(t: Timespec) {
    0 <= t.nsec < NANO
  }

  /** The instant in nanoseconds. */
  function Nanos(t: Timespec): int {
    t.sec * NANO + t.nsec
  }

  /** compare_timespec. */
  function Compare(a: Timespec, b: Timespec): int {
    if a.sec < b.sec then -1
    else if a.sec > b.sec then 1
    else if a.nsec < b.nsec then -1
    else if a.nsec > b.nsec then 1
    else 0
  }

  /** timespec_timeout_expired at a given time. */
  predicate Expired(deadline: Timespec, now: Timespec) {
    now.sec > deadline.sec || (now.sec == deadline.sec && now.nsec >= deadline.nsec)
  }

  /** The deadline that kc3_event_poll_add stores. */
  function DeadlineAfter(now: Timespec, timeout: Timespec): Timespec {
    var sec, nsec := now.sec + timeout.sec, now.nsec + timeout.nsec;
    if nsec >= NANO then Timespec(sec + 1, nsec - NANO) else Timespec(sec, nsec)
  }

  /** On normalized times the comparisons are those of the instants. */
  lemma CompareIsByInstant(a: Timespec, b: Timespec)
    requires Normalized(a) && Normalized(b)
    ensures Compare(a, b) < 0 <==> Nanos(a) < Nanos(b)
    ensures Compare(a, b) == 0 <==> a == b
    ensures Expired(a, b) <==> Nanos(b) >= Nanos(a)
  {
  }

  /** The stored deadline is normalized and exactly the timeout after now. */
  lemma DeadlineIsExact(now: Timespec, timeout: Timespec)
    requires Normalized(now) && Normalized(timeout)
    ensures Normalized(DeadlineAfter(now, timeout))
    ensures Nanos(DeadlineAfter(now, timeout)) == Nanos(now) + Nanos(timeout)
  {
  }

  // ---------- milliseconds ----------

  /** Integer division of C: towards zero. */
  function Truncate(a: int, b: int): int
    requires b > 0
  {
    if a >= 0 then a / b else -((-a) / b)
  }

  /** Conversion of a 64-bit value to a 32-bit signed one. */
  function ToS32(x: int): (r: int)
    ensures -0x8000_0000 <= r < 0x8000_0000
    ensures -0x8000_0000 <= x < 0x8000_0000 ==> r == x
  {
    (x + 0x8000_0000) % 0x1_0000_0000 - 0x8000_0000
  }

  /** Milliseconds of a supplied timeout, before the conversion. */
  function TimeoutMs(t: Timespec): int {
    t.sec * 1000 + Truncate(t.nsec, MILLI)
  }

  /** Milliseconds to a deadline, before the conversion. */
  function RemainingMs(deadline: Timespec, now: Timespec): int {
    (deadline.sec - now.sec) * 1000 + Truncate(deadline.nsec - now.nsec, MILLI)
  }

  datatype Limit = Forever | Within(t: Timespec)
  datatype Earliest = NoTimer | Timer(deadline: Timespec)

  /** The wait given to epoll_wait; a negative one has no end. */
  function ChosenWait(supplied: Limit, earliest: Earliest, now: Timespec): int {
    var timeout := if supplied.Forever? then -1 else ToS32(TimeoutMs(supplied.t));
    if earliest.NoTimer? then timeout
    else
      var timer := ToS32(RemainingMs(earliest.deadline, now));
      var clamped := if timer < 0 then 0 else timer;
      if timeout < 0 || clamped < timeout then clamped else timeout
  }

  /** The wait has an end and the supplied timeout is not before it. */
  predicate RespectsTimeout(wait: int, t: Timespec) {
    0 <= wait && wait * MILLI <= Nanos(t)
  }

  lemma TimeoutMsIsFloor(t: Timespec)
    requires Normalized(t)
    ensures TimeoutMs(t) * MILLI <= Nanos(t) < (TimeoutMs(t) + 1) * MILLI
  {
    assert Truncate(t.nsec, MILLI) * MILLI <= t.nsec < (Truncate(t.nsec, MILLI) + 1) * MILLI;
  }

  lemma ToS32Shrinks(x: int)
    requires x >= 0
    ensures ToS32(x) <= x
  {
  }

  /** A number converts to a non-negative one iff its low 32 bits are below two to the 31. */
  lemma ConvertsToNonNegativeIff(x: int)
    ensures ToS32(x) >= 0 <==> x % 0x1_0000_0000 < 0x8000_0000
  {
  }

  /**
  A supplied timeout is respected exactly when it is not negative and a timer is armed or
  the low 32 bits of its milliseconds are below two to the 31; otherwise, with no timer,
  the wait has no end.
   */
  lemma TimeoutRespectedIff(t: Timespec, earliest: Earliest, now: Timespec)
    requires Normalized(t)
    ensures RespectsTimeout(ChosenWait(Within(t), earliest, now), t) <==>
            t.sec >= 0 && (earliest.Timer? || TimeoutMs(t) % 0x1_0000_0000 < 0x8000_0000)
  {
    TimeoutMsIsFloor(t);
    ConvertsToNonNegativeIff(TimeoutMs(t));
    if t.sec >= 0 {
      assert TimeoutMs(t) >= 0;
      ToS32Shrinks(TimeoutMs(t));
    } else {
      assert Nanos(t) < 0;
    }
    hide Nanos, TimeoutMs, ToS32;
    ScaledOrder(ChosenWait(Within(t), earliest, now), TimeoutMs(t));
  }

  lemma ScaledOrder(a: int, b: int)
    ensures a <= b ==> a * MILLI <= b * MILLI
  {
  }

  /** Two to the thirty-one milliseconds, about 25 days, make poll wait for ever. */
  lemma LongTimeoutWaitsForever()
    ensures ChosenWait(Within(Timespec(2147484, 0)), NoTimer, Timespec(0, 0)) < 0
  {
  }

  /** The wait ends less than a millisecond after the time left to the deadline. */
  predicate FollowsDeadline(wait: int, deadline: Timespec, now: Timespec) {
    var left := Nanos(deadline) - Nanos(now);
    0 <= wait && wait * MILLI < (if left > 0 then left else 0) + MILLI
  }

  /**
  With a timer armed the wait ends less than a millisecond after the time left to it, iff
  the deadline is not more than 2^31 milliseconds past, or the low 32 bits of the
  milliseconds convert to no positive number, or the supplied timeout converts to zero.
  The clock is read again after the expiry check, so a deadline may be long past here.
   */
  lemma WaitFollowsTimerIff(supplied: Limit, deadline: Timespec, now: Timespec)
    requires Normalized(deadline) && Normalized(now)
    ensures FollowsDeadline(ChosenWait(supplied, Timer(deadline), now), deadline, now) <==>
            || RemainingMs(deadline, now) >= -0x8000_0000
            || !(0 < RemainingMs(deadline, now) % 0x1_0000_0000 < 0x8000_0000)
            || (supplied.Within? && TimeoutMs(supplied.t) % 0x1_0000_0000 == 0)
  {
    var ms := RemainingMs(deadline, now);
    var wait := ChosenWait(supplied, Timer(deadline), now);
    RemainingMsRoundsUp(deadline, now);
    ConvertsToNonNegativeIff(ms);
    ConvertsToZeroIff(ms);
    if ms >= 0 { ToS32Shrinks(ms); }
    if supplied.Within? { ConvertsToZeroIff(TimeoutMs(supplied.t)); }
    assert ms < -0x8000_0000 ==> Nanos(deadline) < Nanos(now);
    assert 0 <= wait && (-0x8000_0000 <= ms ==> wait <= ms || wait == 0);
    assert ToS32(ms) <= 0 ==> wait == 0;
    assert ToS32(ms) > 0 ==> (wait == 0 <==> supplied.Within? && ToS32(TimeoutMs(supplied.t)) == 0);
    hide RemainingMs, Nanos, ToS32, TimeoutMs, ChosenWait;
    ScaledOrder(wait, ms);
    ScaledOrder(1, wait);
  }

  lemma ConvertsToZeroIff(x: int)
    ensures ToS32(x) == 0 <==> x % 0x1_0000_0000 == 0
  {
  }

  lemma RemainingMsRoundsUp(deadline: Timespec, now: Timespec)
    requires Normalized(deadline) && Normalized(now)
    ensures var left := Nanos(deadline) - Nanos(now);
            && RemainingMs(deadline, now) * MILLI < left + MILLI
            && (RemainingMs(deadline, now) < 0 ==> left < 0)
  {
    var d := deadline.nsec - now.nsec;
    assert Truncate(d, MILLI) * MILLI < d + MILLI;
  }

  /** With a timer that is 25 days overdue the wait is another 24 days. */
  lemma OverdueTimerIsWaitedFor()
    ensures ChosenWait(Forever, Timer(Timespec(0, 0)), Timespec(2147484, 0)) == 2147483296
  {
  }

  // ---------- a wait is not too short ----------

  /** The wait has no end, or ends no more than a millisecond before the span is over. */
  predicate Covers(wait: int, span: int) {
    wait < 0 || (wait + 1) * MILLI > span
  }

  /**
  With no timer armed a supplied timeout is waited for, iff its milliseconds are below two
  to the 31 or their low 32 bits are not; without a timeout the wait has no end.
   */
  lemma TimeoutCoveredIff(t: Timespec, now: Timespec)
    requires Normalized(t)
    ensures Covers(ChosenWait(Within(t), NoTimer, now), Nanos(t)) <==>
            TimeoutMs(t) < 0x8000_0000 || TimeoutMs(t) % 0x1_0000_0000 >= 0x8000_0000
    ensures ChosenWait(Forever, NoTimer, now) < 0
  {
    TimeoutMsIsFloor(t);
    CoversIff(TimeoutMs(t), Nanos(t));
    LargeIsCut(TimeoutMs(t));
  }

  /** With a timer armed and no timeout, its deadline is waited for iff it is less than 2^31 ms away. */
  lemma DeadlineCoveredIff(deadline: Timespec, now: Timespec)
    requires Normalized(deadline) && Normalized(now)
    ensures Covers(ChosenWait(Forever, Timer(deadline), now), Nanos(deadline) - Nanos(now)) <==>
            RemainingMs(deadline, now) < 0x8000_0000
  {
    RemainingMsRoundsUp(deadline, now);
    RemainingMsCovers(deadline, now);
    LargeIsCut(RemainingMs(deadline, now));
  }

  /** A timeout of 2^32 milliseconds, or a timer 2^31 milliseconds away, is not waited for at all. */
  lemma LongWaitsAreCut()
    ensures ChosenWait(Within(Timespec(4294967, 296_000_000)), NoTimer, Timespec(0, 0)) == 0
    ensures ChosenWait(Forever, Timer(Timespec(2147483, 648_000_000)), Timespec(0, 0)) == 0
  {
  }

  /** With both, and neither as far away as 2^31 milliseconds, the nearer one is waited for. */
  lemma NearerIsCovered(t: Timespec, deadline: Timespec, now: Timespec)
    requires Normalized(t) && Normalized(deadline) && Normalized(now)
    requires 0 <= TimeoutMs(t) < 0x8000_0000 && RemainingMs(deadline, now) < 0x8000_0000
    ensures var wait, left := ChosenWait(Within(t), Timer(deadline), now), Nanos(deadline) - Nanos(now);
            0 <= wait && (Covers(wait, Nanos(t)) || Covers(wait, left))
  {
    TimeoutMsIsFloor(t);
    RemainingMsCovers(deadline, now);
  }

  lemma CoversIff(ms: int, span: int)
    requires ms * MILLI <= span < (ms + 1) * MILLI
    ensures forall wait :: Covers(wait, span) <==> wait < 0 || ms <= wait
  {
  }

  /** A number of at least 2^31 converts to a negative one or to one that is far smaller. */
  lemma LargeIsCut(x: int)
    ensures ToS32(x) < 0 <==> x % 0x1_0000_0000 >= 0x8000_0000
    ensures x >= 0x8000_0000 && ToS32(x) >= 0 ==> ToS32(x) <= x - 0x1_0000_0000
    ensures x < 0x8000_0000 && x >= 0 ==> ToS32(x) == x
  {
  }

  lemma RemainingMsCovers(deadline: Timespec, now: Timespec)
    requires Normalized(deadline) && Normalized(now)
    ensures Nanos(deadline) - Nanos(now) < (RemainingMs(deadline, now) + 1) * MILLI
  {
    var d := deadline.nsec - now.nsec;
    assert d < (Truncate(d, MILLI) + 1) * MILLI;
  }
}
