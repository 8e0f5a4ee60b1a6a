/**
 General.hpp and MyTime.hpp: comparing ticks that wrap, and timers polled from the main loop,
 against a true clock that never wraps.
 */
module Timing {
  import opened Words

  const TICKS := 0x1_0000_0000
  const HALF := 0x8000_0000

  /** Time_t, a uint32_t. */
  type Time = x: int | 0 <= x < 0x1_0000_0000

  function Wrapped(t: int): Time { t % TICKS }

  /** unsigned_is_smaller on a 32-bit type: the difference wraps. */
  predicate unsigned_is_smaller(x: Time, y: Time) {
    (x - y) % TICKS > 0x7FFF_FFFF
  }

  /** ... on a type narrower than int, where it is an int and does not wrap. */
  predicate NarrowIsSmaller(WrapValue: nat, x: nat, y: nat) { x - y > WrapValue / 2 }

  // ---------------------------------------------------------------- the comparison

  /** Floor division by a constant is unique. */
  lemma WrapIs(t: int, q: int, r: int)
    requires t == q * TICKS + r && 0 <= r < TICKS
    ensures Wrapped(t) == r
  {
  }

  lemma WrappedDifference(a: int, b: int)
    ensures (Wrapped(a) - Wrapped(b)) % TICKS == Wrapped(a - b)
  {
    var qa, qb, qd := a / TICKS, b / TICKS, (a - b) / TICKS;
    assert a == qa * TICKS + Wrapped(a) && b == qb * TICKS + Wrapped(b);
    assert Wrapped(a) - Wrapped(b) == (qd - qa + qb) * TICKS + Wrapped(a - b);
    WrapIs(Wrapped(a) - Wrapped(b), qd - qa + qb, Wrapped(a - b));
  }

  /** The comparison sees the true order exactly when the distance lies in an even half-turn. */
  lemma SeesTrueOrderIff(a: int, b: int)
    ensures unsigned_is_smaller(Wrapped(a), Wrapped(b)) == (a < b)
       <==> (if a < b then (b - a - 1) / HALF % 2 == 0 else (a - b) / HALF % 2 == 0)
  {
    WrappedDifference(a, b);
    var q, r := (a - b) / TICKS, Wrapped(a - b);
    assert a - b == q * TICKS + r;
  }

  /** In particular whenever the times are less than half a turn apart. */
  lemma SeesTrueOrder(a: int, b: int)
    requires -0x8000_0000 <= a - b < 0x8000_0000
    ensures unsigned_is_smaller(Wrapped(a), Wrapped(b)) <==> a < b
    ensures Wrapped(a) == Wrapped(b) <==> a == b
  {
    WrappedDifference(a, b);
    if a < b {
      WrapIs(a - b, -1, a - b + TICKS);
    } else {
      WrapIs(a - b, 0, a - b);
    }
  }

  /** On a narrow type of n values it is wrong exactly when y is ahead of x by less than n - WrapValue / 2. */
  lemma NarrowIsRightIff(n: nat, WrapValue: nat, x: nat, y: nat)
    requires WrapValue < n && x < n && y < n
    ensures NarrowIsSmaller(WrapValue, x, y) == ((x - y) % n > WrapValue / 2) <==> !(0 < y - x < n - WrapValue / 2)
  {
    CircleDistance(y, x, n);
  }

  // ---------------------------------------------------------------- the timers

  /**
   A poll of a timer, in true time: the reading its check takes, the reading a restart takes
   (Periodically restarts from the former), and the period it restarts with.
   */
  datatype Poll = Poll(check: int, again: int, period: Time)

  /** Periodically fires after its deadline, TimePeriod at it too. */
  predicate Due(deadline: int, t: int, strict: bool) { if strict then deadline < t else deadline <= t }

  function Restarted(deadline: int, p: Poll, strict: bool): int {
    if Due(deadline, p.check, strict) then p.again + p.period else deadline
  }

  /** The same on ticks. */
  predicate TickDue(NextTime: Time, now: Time, strict: bool) {
    (!strict && NextTime == now) || unsigned_is_smaller(NextTime, now)
  }

  function TickRestarted(NextTime: Time, now: Time, again: Time, period: Time, strict: bool): Time {
    if TickDue(NextTime, now, strict) then (again + period) % TICKS else NextTime
  }

  class Periodically {
    var NextTime: Time

    constructor (now: Time)
      ensures NextTime == now
    {
      NextTime := now;
    }

    /** Returns whether Func was called. */
    method Run(Now: Time, Period: Time) returns (called: bool)
      modifies this
      ensures NextTime == TickRestarted(old(NextTime), Now, Now, Period, true)
      ensures called == (TickDue(old(NextTime), Now, true) && Period != 0)
      ensures old(NextTime) == Now ==> !called
    {
      called := false;
      if unsigned_is_smaller(NextTime, Now) {
        NextTime := (Now + Period) % TICKS;
        called := Period != 0;
      }
    }
  }

  class TimePeriod {
    var NextTime: Time
    const Period: Time

    constructor (Timeout: Time, Expired: bool, now: Time)
      ensures Period == Timeout && NextTime == if Expired then now else (now + Timeout) % TICKS
    {
      Period := Timeout;
      NextTime := if Expired then now else (now + Timeout) % TICKS;
    }

    predicate JustCheck(t: Time)
      reads this
    {
      NextTime == t || unsigned_is_smaller(NextTime, t)
    }

    method Reset(again: Time)
      modifies this
      ensures NextTime == (again + Period) % TICKS
    {
      NextTime := (again + Period) % TICKS;
    }

    /** It reads the clock twice: for the check and for the restart. */
    method Expired(now: Time, again: Time) returns (expired: bool)
      modifies this
      ensures NextTime == TickRestarted(old(NextTime), now, again, Period, false)
      ensures expired == TickDue(old(NextTime), now, false)
      ensures old(NextTime) == now ==> expired
    {
      expired := JustCheck(now);
      if expired {
        Reset(again);
      }
    }
  }

  // ---------------------------------------------------------------- runs

  /** The deadline before poll j, in true time. */
  function DeadlineAt(first: int, polls: seq<Poll>, strict: bool, j: nat): int
    requires j <= |polls|
  {
    if j == 0 then first else Restarted(DeadlineAt(first, polls, strict, j - 1), polls[j - 1], strict)
  }

  /** What the timer holds before poll j. */
  function TickAt(first: Time, polls: seq<Poll>, strict: bool, j: nat): Time
    requires j <= |polls|
  {
    if j == 0 then first
    else
      var p := polls[j - 1];
      TickRestarted(TickAt(first, polls, strict, j - 1), Wrapped(p.check), Wrapped(p.again), p.period, strict)
  }

  /** Whether the timer fires at poll j. */
  predicate Fires(first: Time, polls: seq<Poll>, strict: bool, j: nat)
    requires j < |polls|
  {
    TickDue(TickAt(first, polls, strict, j), Wrapped(polls[j].check), strict)
  }

  /** Time goes on, polls are at most half a turn apart, and periods are shorter than that. */
  predicate InTime(last: Poll, p: Poll) {
    last.again <= p.check <= p.again && p.check - last.check <= 0x8000_0000 && p.period < 0x8000_0000
  }

  /** `start` is the reading the timer was set up with. */
  predicate Orderly(start: Poll, polls: seq<Poll>) {
    forall j :: 0 <= j < |polls| ==> InTime(Before(start, polls, j), polls[j])
  }

  function Before(start: Poll, polls: seq<Poll>, j: nat): Poll
    requires j <= |polls|
  {
    if j == 0 then start else polls[j - 1]
  }

  /** After `last` the deadline is neither behind it nor half a turn ahead. */
  predicate Around(deadline: int, last: Poll) {
    last.check <= last.again && last.check <= deadline < last.again + 0x8000_0000
  }

  /** One poll: ticks decide as true time does. */
  lemma PollAgrees(deadline: int, last: Poll, p: Poll, strict: bool)
    requires Around(deadline, last) && InTime(last, p)
    ensures TickDue(Wrapped(deadline), Wrapped(p.check), strict) <==> Due(deadline, p.check, strict)
    ensures TickRestarted(Wrapped(deadline), Wrapped(p.check), Wrapped(p.again), p.period, strict)
         == Wrapped(Restarted(deadline, p, strict))
    ensures Around(Restarted(deadline, p, strict), p)
  {
    SeesTrueOrder(deadline, p.check);
    ModAdd(p.again, p.period, TICKS);
  }

  lemma {:induction false} RunAgrees(first: int, start: Poll, polls: seq<Poll>, strict: bool, j: nat)
    requires Around(first, start) && Orderly(start, polls) && j <= |polls|
    ensures TickAt(Wrapped(first), polls, strict, j) == Wrapped(DeadlineAt(first, polls, strict, j))
    ensures Around(DeadlineAt(first, polls, strict, j), Before(start, polls, j))
  {
    if j > 0 {
      RunAgrees(first, start, polls, strict, j - 1);
      PollAgrees(DeadlineAt(first, polls, strict, j - 1), Before(start, polls, j - 1), polls[j - 1], strict);
    }
  }

  /** The last poll before poll j at which the timer fired, or -1. */
  function LastFired(first: Time, polls: seq<Poll>, strict: bool, j: nat): (i: int)
    requires j <= |polls|
    ensures -1 <= i < j && (i >= 0 ==> Fires(first, polls, strict, i))
    ensures forall k :: i < k < j ==> !Fires(first, polls, strict, k)
  {
    if j == 0 then -1 else if Fires(first, polls, strict, j - 1) then j - 1 else LastFired(first, polls, strict, j - 1)
  }

  /** When the timer is next due: a period after it last fired. */
  function NextDue(first: int, polls: seq<Poll>, i: int): int
    requires i < |polls|
  {
    if i < 0 then first else polls[i].again + polls[i].period
  }

  lemma {:induction false} DeadlineSinceLast(first: int, start: Poll, polls: seq<Poll>, strict: bool, j: nat)
    requires Around(first, start) && Orderly(start, polls) && j <= |polls|
    ensures DeadlineAt(first, polls, strict, j) == NextDue(first, polls, LastFired(Wrapped(first), polls, strict, j))
  {
    if j > 0 {
      RunAgrees(first, start, polls, strict, j - 1);
      PollAgrees(DeadlineAt(first, polls, strict, j - 1), Before(start, polls, j - 1), polls[j - 1], strict);
      DeadlineSinceLast(first, start, polls, strict, j - 1);
    }
  }

  /**
   Over any number of wraps: a timer fires at exactly those polls that come after its deadline,
   which is the period after it last fired; so never within the period, and always at the first
   poll past it.
   */
  lemma FiresIffDue(first: int, start: Poll, polls: seq<Poll>, strict: bool, j: nat)
    requires Around(first, start) && Orderly(start, polls) && j < |polls|
    ensures Fires(Wrapped(first), polls, strict, j)
       <==> Due(NextDue(first, polls, LastFired(Wrapped(first), polls, strict, j)), polls[j].check, strict)
  {
    DeadlineSinceLast(first, start, polls, strict, j);
    RunAgrees(first, start, polls, strict, j);
    PollAgrees(DeadlineAt(first, polls, strict, j), Before(start, polls, j), polls[j], strict);
  }

  /** A poll more than half a turn after the deadline, and less than a whole one, misses it. */
  lemma TooLate(deadline: int, t: int, strict: bool)
    requires 0x8000_0000 < t - deadline < 0x1_0000_0000
    ensures !TickDue(Wrapped(deadline), Wrapped(t), strict)
  {
    WrappedDifference(deadline, t);
    WrapIs(deadline - t, -1, deadline - t + TICKS);
  }
}
