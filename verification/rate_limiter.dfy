/** The fixed-window rate limiter of the API middleware, and what it lets through in any minute. */
module RateLimiter {
  import opened Options

  /** `MAX_REQUESTS_EVENTS_DEFAULT` */
  const MAX_EVENTS: int := 30

  /** One of the two pairs of module globals: a request counter and the time its window opened. */
  datatype Limiter = Limiter(counter: int, start: Option<real>)

  const UNUSED: Limiter := Limiter(0, None)

  /** The three times at which one call may read the clock. */
  datatype Clock = Clock(first: real, second: real, third: real)

  /** Readings are after the epoch, and in order. */
  predicate Ticking(clocks: seq<Clock>) {
    && (forall k :: 0 <= k < |clocks| ==> 0.0 < clocks[k].first <= clocks[k].second <= clocks[k].third)
    && (forall j, k :: 0 <= j < k < |clocks| ==> clocks[j].third <= clocks[k].first)
  }

  /** The window as the call first sees it: an unset start (and a zero one) counts as unset. */
  function Start(l: Limiter, now: real): real {
    if l.start.None? || l.start.value == 0.0 then now else l.start.value
  }

  function Checked(l: Limiter, clock: Clock): Limiter {
    var start := Start(l, clock.first);
    if clock.second - 60.0 <= start then Limiter(l.counter + 1, Some(start)) else Limiter(0, Some(clock.third))
  }

  /** A window that opened at the epoch counts as none. */
  lemma ZeroStartIsUnset(counter: int, clock: Clock)
    ensures Checked(Limiter(counter, Some(0.0)), clock) == Checked(Limiter(counter, None), clock)
  {
  }

  predicate Admits(l: Limiter, clock: Clock, max: int) {
    Checked(l, clock).counter <= max
  }

  class RateLimits {
    var generalRequestCounter: int
    var generalCurrentTime: Option<real>
    var eventsRequestCounter: int
    var eventsCurrentTime: Option<real>

    function General(): Limiter
      reads this
    {
      Limiter(generalRequestCounter, generalCurrentTime)
    }

    function Events(): Limiter
      reads this
    {
      Limiter(eventsRequestCounter, eventsCurrentTime)
    }

    constructor ()
      ensures General() == UNUSED && Events() == UNUSED
    {
      generalRequestCounter, generalCurrentTime := 0, None;
      eventsRequestCounter, eventsCurrentTime := 0, None;
    }

    /** `check_rate_limit` on the general counter. */
    method CheckGeneral(clock: Clock, maxRequests: int) returns (errorCode: int)
      modifies this`generalRequestCounter, this`generalCurrentTime
      ensures General() == Checked(old(General()), clock)
      ensures errorCode == if Admits(old(General()), clock, maxRequests) then 0 else 6001
    {
      if generalCurrentTime.None? || generalCurrentTime.value == 0.0 {
        generalCurrentTime := Some(clock.first);
      }
      if clock.second - 60.0 <= generalCurrentTime.value {
        generalRequestCounter := generalRequestCounter + 1;
      } else {
        generalRequestCounter := 0;
        generalCurrentTime := Some(clock.third);
      }
      errorCode := if generalRequestCounter > maxRequests then 6001 else 0;
    }

    /** `check_rate_limit` on the counter of event requests. */
    method CheckEvents(clock: Clock, maxRequests: int) returns (errorCode: int)
      modifies this`eventsRequestCounter, this`eventsCurrentTime
      ensures Events() == Checked(old(Events()), clock)
      ensures errorCode == if Admits(old(Events()), clock, maxRequests) then 0 else 6005
    {
      if eventsCurrentTime.None? || eventsCurrentTime.value == 0.0 {
        eventsCurrentTime := Some(clock.first);
      }
      if clock.second - 60.0 <= eventsCurrentTime.value {
        eventsRequestCounter := eventsRequestCounter + 1;
      } else {
        eventsRequestCounter := 0;
        eventsCurrentTime := Some(clock.third);
      }
      errorCode := if eventsRequestCounter > maxRequests then 6005 else 0;
    }

    /**
     `CheckRateLimitsMiddleware.dispatch`. For an event request the second verdict replaces the first,
     so the general limit counts such a request but never stops it.
     */
    method Dispatch(request: Request, maxRequests: int) returns (admitted: bool)
      modifies this
      ensures General() == Checked(old(General()), request.general)
      ensures Events() == if request.events then Checked(old(Events()), request.second) else old(Events())
      ensures admitted == Passes(old(General()), old(Events()), request, maxRequests)
    {
      var errorCode := CheckGeneral(request.general, maxRequests);
      if request.events {
        errorCode := CheckEvents(request.second, MAX_EVENTS);
      }
      admitted := errorCode == 0;
    }
  }

  /** A request, whether it is for `/events`, and the clock readings of its one or two checks. */
  datatype Request = Request(events: bool, general: Clock, second: Clock)

  predicate Passes(general: Limiter, events: Limiter, request: Request, max: int) {
    if request.events then Admits(events, request.second, MAX_EVENTS) else Admits(general, request.general, max)
  }

  /** How many requests the limiter admits out of those whose clock reading falls in the minute from `from`. */
  function Admitted(l: Limiter, clocks: seq<Clock>, max: int, from: real): nat
    decreases |clocks|
  {
    if clocks == [] then 0
    else (if Admits(l, clocks[0], max) && from <= clocks[0].second <= from + 60.0 then 1 else 0)
         + Admitted(Checked(l, clocks[0]), clocks[1..], max, from)
  }

  function After(l: Limiter, clocks: seq<Clock>): Limiter
    decreases |clocks|
  {
    if clocks == [] then l else After(Checked(l, clocks[0]), clocks[1..])
  }

  function Min(a: int, b: int): int {
    if a <= b then a else b
  }

  /** `n` requests of the minute from `from` have been admitted by the time the limiter is `l`. */
  ghost predicate Paced(l: Limiter, max: nat, from: real, last: real, n: nat) {
    && l.counter >= 0
    && (match l.start
        case None => n == 0 && l.counter == 0
        case Some(start) =>
          && 0.0 < start <= last
          && (if last < from then n == 0
              else if last > from + 60.0 then n <= 2 * max + 1
              else if start < from then n <= Min(l.counter, max)
              else n <= max + 1 + Min(l.counter, max)))
  }

  lemma StepIsPaced(l: Limiter, clock: Clock, max: nat, from: real, last: real, n: nat)
    requires Paced(l, max, from, last, n) && 0.0 < clock.first <= clock.second <= clock.third && last <= clock.first
    ensures Paced(Checked(l, clock), max, from, clock.third, n + Admitted(l, [clock], max, from))
  {
    assert Admitted(l, [clock], max, from) ==
      if Admits(l, clock, max) && from <= clock.second <= from + 60.0 then 1 else 0;
  }

  lemma TickingTail(clocks: seq<Clock>)
    requires Ticking(clocks) && clocks != []
    ensures Ticking(clocks[1..]) && forall k :: 0 <= k < |clocks[1..]| ==> clocks[0].third <= clocks[1..][k].first
  {
    forall j, k | 0 <= j < k < |clocks[1..]|
      ensures clocks[1..][j].third <= clocks[1..][k].first
    {
      assert clocks[1..][j] == clocks[j + 1] && clocks[1..][k] == clocks[k + 1];
    }
  }

  lemma {:induction false} RunIsPaced(l: Limiter, clocks: seq<Clock>, max: nat, from: real, last: real, n: nat)
    requires Ticking(clocks) && Paced(l, max, from, last, n)
    requires forall k :: 0 <= k < |clocks| ==> last <= clocks[k].first
    ensures n + Admitted(l, clocks, max, from) <= 2 * max + 1
    decreases |clocks|
  {
    if clocks != [] {
      StepIsPaced(l, clocks[0], max, from, last, n);
      TickingTail(clocks);
      RunIsPaced(Checked(l, clocks[0]), clocks[1..], max, from, clocks[0].third,
          n + Admitted(l, [clocks[0]], max, from));
    }
  }

  lemma {:induction false} NothingAdmitted(l: Limiter, clocks: seq<Clock>, max: int, from: real)
    requires max < 0 && l.counter >= 0
    ensures Admitted(l, clocks, max, from) == 0
    decreases |clocks|
  {
    if clocks != [] {
      NothingAdmitted(Checked(l, clocks[0]), clocks[1..], max, from);
    }
  }

  /**
   A limiter of `max` requests a minute admits at most `2 * max + 1` in any 60 seconds, and none if `max` is
   negative.
   */
  lemma AnyMinuteIsBounded(clocks: seq<Clock>, max: int, from: real)
    requires Ticking(clocks)
    ensures Admitted(UNUSED, clocks, max, from) <= if max < 0 then 0 else 2 * max + 1
  {
    if max < 0 {
      NothingAdmitted(UNUSED, clocks, max, from);
    } else {
      RunIsPaced(UNUSED, clocks, max, from, 0.0, 0);
    }
  }

  /** The calls all read a time inside the window that started at `start`. */
  predicate InWindow(clocks: seq<Clock>, start: real) {
    forall k :: 0 <= k < |clocks| ==> clocks[k].second <= start + 60.0
  }

  /**
   Inside a window the first requests up to the limit are admitted and the rest are not; none of them,
   admitted or rejected, moves the window.
   */
  lemma {:induction false} WindowIsExact(l: Limiter, clocks: seq<Clock>, max: int, from: real)
    requires l.start.Some? && l.start.value > 0.0 && InWindow(clocks, l.start.value)
    requires forall k :: 0 <= k < |clocks| ==> from <= clocks[k].second <= from + 60.0
    ensures After(l, clocks) == Limiter(l.counter + |clocks|, l.start)
    ensures Admitted(l, clocks, max, from) == if max <= l.counter then 0 else Min(|clocks|, max - l.counter)
    decreases |clocks|
  {
    if clocks != [] {
      assert clocks[0].second <= l.start.value + 60.0;
      assert InWindow(clocks[1..], l.start.value);
      WindowIsExact(Checked(l, clocks[0]), clocks[1..], max, from);
    }
  }

  /** The request opens the first window, and is counted in it. */
  predicate IsFirst(l: Limiter, opening: Clock) {
    l == UNUSED && opening.second <= opening.first + 60.0
  }

  /**
   The first window admits `max` requests; a later one also admits the request that opens it, and so does
   the first if a minute passes between the two clock readings of that request.
   */
  lemma WindowTotals(l: Limiter, opening: Clock, clocks: seq<Clock>, max: nat, from: real)
    requires l == UNUSED || (l.start.Some? && l.start.value > 0.0 && opening.second > l.start.value + 60.0)
    requires 0.0 < opening.first <= opening.second <= opening.third && from <= opening.second <= from + 60.0
    requires InWindow(clocks, if IsFirst(l, opening) then opening.first else opening.third)
    requires forall k :: 0 <= k < |clocks| ==> from <= clocks[k].second <= from + 60.0
    ensures Admitted(l, [opening] + clocks, max, from) ==
              if IsFirst(l, opening) then Min(|clocks| + 1, max) else 1 + Min(|clocks|, max)
    ensures After(l, [opening] + clocks) ==
              if IsFirst(l, opening) then Limiter(|clocks| + 1, Some(opening.first))
              else Limiter(|clocks|, Some(opening.third))
  {
    assert ([opening] + clocks)[1..] == clocks;
    WindowIsExact(Checked(l, opening), clocks, max, from);
  }

  // The bound is attained.

  function Instant(at: real): Clock {
    Clock(at, at, at)
  }

  function Burst(at: real, n: nat): (clocks: seq<Clock>)
    ensures |clocks| == n && forall k :: 0 <= k < n ==> clocks[k] == Instant(at)
  {
    seq(n, _ => Instant(at))
  }

  lemma {:induction false} AdmittedAppend(l: Limiter, first: seq<Clock>, second: seq<Clock>, max: int, from: real)
    ensures Admitted(l, first + second, max, from)
        == Admitted(l, first, max, from) + Admitted(After(l, first), second, max, from)
    ensures After(l, first + second) == After(After(l, first), second)
    decreases |first|
  {
    if first == [] {
      assert first + second == second;
    } else {
      assert (first + second)[1..] == first[1..] + second;
      AdmittedAppend(Checked(l, first[0]), first[1..], second, max, from);
    }
  }

  /**
   The limit at the end of one window, then the request that opens the next and the limit again, all within a
   second.
   */
  lemma BoundIsAttained(max: nat)
    ensures exists clocks, from :: Ticking(clocks) && Admitted(UNUSED, clocks, max, from) == 2 * max + 1
  {
    var opening, late, next := [Instant(1.0), Instant(100.0)], Burst(160.0, max), Burst(160.5, max + 1);
    var from := 100.5;
    var all := opening + late + next;
    assert Ticking(all);
    AdmittedAppend(UNUSED, opening + late, next, max, from);
    AdmittedAppend(UNUSED, opening, late, max, from);
    var l := After(UNUSED, opening);
    assert l == Limiter(0, Some(100.0)) && Admitted(UNUSED, opening, max, from) == 0 by {
      assert opening[1..] == [Instant(100.0)] && opening[1..][1..] == [];
      assert Checked(UNUSED, Instant(1.0)) == Limiter(1, Some(1.0));
      assert Checked(Limiter(1, Some(1.0)), Instant(100.0)) == Limiter(0, Some(100.0));
    }
    WindowIsExact(l, late, max, from);
    assert next == [Instant(160.5)] + Burst(160.5, max);
    WindowTotals(After(l, late), Instant(160.5), Burst(160.5, max), max, from);
  }

  // Through dispatch.

  function GeneralClocks(requests: seq<Request>): (clocks: seq<Clock>)
    ensures |clocks| == |requests| && forall k :: 0 <= k < |requests| ==> clocks[k] == requests[k].general
  {
    seq(|requests|, k requires 0 <= k < |requests| => requests[k].general)
  }

  function EventClocks(requests: seq<Request>): seq<Clock>
    decreases |requests|
  {
    if requests == [] then []
    else (if requests[0].events then [requests[0].second] else []) + EventClocks(requests[1..])
  }

  /** How many requests of one kind dispatch lets through in the minute from `from`, by the reading that decides. */
  function Passed(general: Limiter, events: Limiter, requests: seq<Request>, kind: bool, max: int, from: real): nat
    decreases |requests|
  {
    if requests == [] then 0
    else
      var r := requests[0];
      var at := if r.events then r.second.second else r.general.second;
      (if r.events == kind && Passes(general, events, r, max) && from <= at <= from + 60.0 then 1 else 0)
      + Passed(Checked(general, r.general), if r.events then Checked(events, r.second) else events,
               requests[1..], kind, max, from)
  }

  /**
   The general limiter sees every request, in order. Out of those of one kind, how many of the minute from
   `from` does it admit?
   */
  function AdmittedOf(l: Limiter, requests: seq<Request>, kind: bool, max: int, from: real): nat
    decreases |requests|
  {
    if requests == [] then 0
    else
      var r := requests[0];
      (if r.events == kind && Admits(l, r.general, max) && from <= r.general.second <= from + 60.0 then 1 else 0)
      + AdmittedOf(Checked(l, r.general), requests[1..], kind, max, from)
  }

  /**
   An event request passes if and only if the limiter of events admits it, an ordinary one if and only if the
   general limiter does, which counts the event requests as well.
   */
  lemma {:induction false} PassedIsAdmitted(general: Limiter, events: Limiter, requests: seq<Request>, max: int,
      from: real)
    ensures Passed(general, events, requests, true, max, from)
        == Admitted(events, EventClocks(requests), MAX_EVENTS, from)
    ensures Passed(general, events, requests, false, max, from) == AdmittedOf(general, requests, false, max, from)
    ensures AdmittedOf(general, requests, false, max, from) + AdmittedOf(general, requests, true, max, from)
        == Admitted(general, GeneralClocks(requests), max, from)
    decreases |requests|
  {
    if requests != [] {
      var r := requests[0];
      var rest := requests[1..];
      assert GeneralClocks(requests)[1..] == GeneralClocks(rest);
      if r.events {
        assert EventClocks(requests) == [r.second] + EventClocks(rest);
        assert EventClocks(requests)[1..] == EventClocks(rest);
        PassedIsAdmitted(Checked(general, r.general), Checked(events, r.second), rest, max, from);
      } else {
        assert EventClocks(requests) == EventClocks(rest);
        PassedIsAdmitted(Checked(general, r.general), events, rest, max, from);
      }
    }
  }

  /** In any minute dispatch lets at most 61 event requests and `2 * max + 1` others through. */
  lemma DispatchIsBounded(requests: seq<Request>, max: int, from: real)
    requires Ticking(GeneralClocks(requests)) && Ticking(EventClocks(requests))
    ensures Passed(UNUSED, UNUSED, requests, true, max, from) <= 61
    ensures Passed(UNUSED, UNUSED, requests, false, max, from) <= if max < 0 then 0 else 2 * max + 1
  {
    PassedIsAdmitted(UNUSED, UNUSED, requests, max, from);
    AnyMinuteIsBounded(EventClocks(requests), MAX_EVENTS, from);
    AnyMinuteIsBounded(GeneralClocks(requests), max, from);
  }

  function Requests(events: bool, clocks: seq<Clock>): (requests: seq<Request>)
    ensures |requests| == |clocks| && forall k :: 0 <= k < |clocks| ==>
              requests[k] == Request(events, clocks[k], clocks[k])
  {
    seq(|clocks|, k requires 0 <= k < |clocks| => Request(events, clocks[k], clocks[k]))
  }

  lemma {:induction false} OfOneKind(general: Limiter, events: Limiter, clocks: seq<Clock>, max: int, from: real)
    ensures Passed(general, events, Requests(false, clocks), false, max, from) == Admitted(general, clocks, max, from)
    ensures EventClocks(Requests(true, clocks)) == clocks && EventClocks(Requests(false, clocks)) == []
    ensures GeneralClocks(Requests(true, clocks)) == clocks == GeneralClocks(Requests(false, clocks))
    decreases |clocks|
  {
    if clocks != [] {
      OfOneKind(Checked(general, clocks[0]), events, clocks[1..], max, from);
      assert Requests(true, clocks)[1..] == Requests(true, clocks[1..]);
      assert Requests(false, clocks)[1..] == Requests(false, clocks[1..]);
      assert clocks == [clocks[0]] + clocks[1..];
    }
  }

  /** Dispatch reaches both bounds. */
  lemma DispatchBoundIsAttained(max: nat)
    ensures exists requests, from ::
              && Ticking(GeneralClocks(requests)) && Ticking(EventClocks(requests))
              && Passed(UNUSED, UNUSED, requests, true, max, from) == 61
    ensures exists requests, from ::
              && Ticking(GeneralClocks(requests)) && Ticking(EventClocks(requests))
              && Passed(UNUSED, UNUSED, requests, false, max, from) == 2 * max + 1
  {
    BoundIsAttained(30);
    var clocks, from :| Ticking(clocks) && Admitted(UNUSED, clocks, 30, from) == 2 * 30 + 1;
    OfOneKind(UNUSED, UNUSED, clocks, max, from);
    PassedIsAdmitted(UNUSED, UNUSED, Requests(true, clocks), max, from);
    BoundIsAttained(max);
    clocks, from :| Ticking(clocks) && Admitted(UNUSED, clocks, max, from) == 2 * max + 1;
    OfOneKind(UNUSED, UNUSED, clocks, max, from);
    assert Passed(UNUSED, UNUSED, Requests(false, clocks), false, max, from) == 2 * max + 1;
  }

  /** A general limit of zero turns every other request of the first minute away, but not an event request. */
  lemma EventsEscapeTheGeneralLimit()
    ensures var now := Instant(1.0);
            Passes(UNUSED, UNUSED, Request(true, now, now), 0) && !Passes(UNUSED, UNUSED, Request(false, now, now), 0)
  {
  }
}
