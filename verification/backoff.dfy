/**
 The waiting part of `lock` in the active-response library: a back-off counter
 that grows by one or two a round, the sleep it causes, and the point at which a
 waiting process gives up on the holder.
 */
module Backoff {
  import opened Options

  /** `max_iteration` of the source. */
  const MAX_ITERATION: nat := 50

  /** The value of `saved_pid` when nothing has been remembered yet. */
  const NO_PID: int := -1

  /** `i` and `saved_pid` of the source, with the rounds and seconds spent since `i` was last zero. */
  datatype Counter = Counter(i: nat, savedPid: int, rounds: nat, slept: nat)

  const FRESH: Counter := Counter(0, NO_PID, 0, 0)

  /** What one look at the pid file does; `None` is a file that cannot be opened or holds no number. */
  function Observe(c: Counter, reading: Option<int>): Counter {
    match reading
    case None => c
    case Some(pid) =>
      var saved := if c.savedPid == NO_PID then pid else c.savedPid;
      c.(savedPid := saved, i := if pid == saved then c.i + 1 else c.i)
  }

  /** `sleep(i); i++`. */
  function Sleep(c: Counter): Counter {
    c.(i := c.i + 1, slept := c.slept + c.i, rounds := c.rounds + 1)
  }

  function Round(c: Counter, reading: Option<int>): Counter {
    Sleep(Observe(c, reading))
  }

  /** What holds between rounds of one epoch, as long as the counter has not run out. */
  ghost predicate Paced(c: Counter) {
    && c.rounds <= c.i <= 2 * c.rounds
    && c.i < MAX_ITERATION
    && c.i * c.i <= 4 * c.slept + 1
    && 2 * c.slept + c.i <= c.i * c.i
  }

  /** What holds when the counter has just run out. */
  ghost predicate Spent(c: Counter) {
    && MAX_ITERATION <= c.i <= MAX_ITERATION + 1
    && 25 <= c.rounds <= 50
    && 625 <= c.slept <= 1226
  }

  /** One round keeps the pace or ends the epoch, inside the bounds. */
  lemma RoundIsPaced(c: Counter, reading: Option<int>)
    requires Paced(c)
    ensures var d := Round(c, reading);
            && c.i < d.i
            && (if d.i < MAX_ITERATION then Paced(d) else Spent(d))
  {
    var i := c.i;
    assert (i + 1) * (i + 1) == i * i + 2 * i + 1;
    assert (i + 2) * (i + 2) == i * i + 4 * i + 4;
    if i >= 48 {
      assert i * i == 48 * 48 || i * i == 49 * 49;
    }
  }

  /** The counter after the given readings, stopping as soon as it runs out. */
  function Epoch(c: Counter, readings: seq<Option<int>>): Counter
    decreases |readings|
  {
    if readings == [] || c.i >= MAX_ITERATION then c else Epoch(Round(c, readings[0]), readings[1..])
  }

  lemma {:induction false} EpochFrom(c: Counter, readings: seq<Option<int>>)
    requires Paced(c)
    ensures var d := Epoch(c, readings);
        if d.i < MAX_ITERATION then Paced(d) && d.rounds == c.rounds + |readings| else Spent(d)
    decreases |readings|
  {
    if readings != [] {
      RoundIsPaced(c, readings[0]);
      var d := Round(c, readings[0]);
      if d.i < MAX_ITERATION {
        EpochFrom(d, readings[1..]);
      } else {
        assert Epoch(d, readings[1..]) == d;
      }
    }
  }

  /**
   Whatever the pid file shows, a process that keeps waiting turns on the holder after 25 to 50
   rounds and 625 to 1226 seconds of sleep, and 50 rounds are always enough.
   */
  lemma EveryScheduleIsBounded(readings: seq<Option<int>>)
    ensures var d := Epoch(FRESH, readings);
            && (d.i >= MAX_ITERATION ==> Spent(d))
            && (d.i < MAX_ITERATION ==> d.rounds == |readings| < 50)
            && (|readings| < 25 ==> d.i < MAX_ITERATION)
  {
    EpochFrom(FRESH, readings);
    EpochRounds(FRESH, readings);
  }

  lemma {:induction false} EpochRounds(c: Counter, readings: seq<Option<int>>)
    ensures Epoch(c, readings).rounds <= c.rounds + |readings|
    decreases |readings|
  {
    if readings != [] && c.i < MAX_ITERATION {
      EpochRounds(Round(c, readings[0]), readings[1..]);
    }
  }

  // What the counter counts, without following it.

  /** The first pid that is not -1 in the first `n` readings, -1 without one. */
  function Remembered(readings: seq<Option<int>>, n: nat): int
    requires n <= |readings|
  {
    if n == 0 then -1
    else if Remembered(readings, n - 1) != -1 || readings[n - 1].None? then Remembered(readings, n - 1)
    else readings[n - 1].value
  }

  lemma {:induction false} RememberedIsFirst(readings: seq<Option<int>>, n: nat, k: nat)
    requires k < n <= |readings| && readings[k].Some? && readings[k].value != -1
    requires forall j :: 0 <= j < k && readings[j].Some? ==> readings[j].value == -1
    ensures Remembered(readings, n) == readings[k].value
  {
    if n == k + 1 {
      NothingRemembered(readings, k);
    } else {
      RememberedIsFirst(readings, n - 1, k);
    }
  }

  lemma {:induction false} NothingRemembered(readings: seq<Option<int>>, n: nat)
    requires n <= |readings| && forall j :: 0 <= j < n && readings[j].Some? ==> readings[j].value == -1
    ensures Remembered(readings, n) == -1
  {
    if n > 0 {
      NothingRemembered(readings, n - 1);
    }
  }

  /** How many of the first `n` readings show the pid remembered by then. */
  function Unchanged(readings: seq<Option<int>>, n: nat): nat
    requires n <= |readings|
  {
    if n == 0 then 0
    else Unchanged(readings, n - 1) + if readings[n - 1] == Some(Remembered(readings, n)) then 1 else 0
  }

  /** Round `k` sleeps `k` seconds and one more for each reading so far that shows the remembered pid. */
  function Naps(readings: seq<Option<int>>, n: nat): nat
    requires n <= |readings|
  {
    if n == 0 then 0 else Naps(readings, n - 1) + (n - 1) + Unchanged(readings, n)
  }

  lemma {:induction false} EpochSplit(c: Counter, readings: seq<Option<int>>, last: Option<int>)
    ensures var d := Epoch(c, readings);
            Epoch(c, readings + [last]) == if d.i >= MAX_ITERATION then d else Round(d, last)
    decreases |readings|
  {
    hide Round;
    if readings == [] {
      assert ([] + [last])[0] == last && ([] + [last])[1..] == [];
      assert Epoch(Round(c, last), []) == Round(c, last);
    } else {
      assert (readings + [last])[1..] == readings[1..] + [last];
      if c.i < MAX_ITERATION {
        EpochSplit(Round(c, readings[0]), readings[1..], last);
      }
    }
  }

  /** The counter adds up the rounds and the readings of the same pid, and the sleep adds up the counter. */
  lemma {:induction false} CounterCounts(readings: seq<Option<int>>, n: nat)
    requires n <= |readings| && forall k: nat :: k < n ==> k + Unchanged(readings, k) < 50
    ensures Epoch(FRESH, readings[..n]) ==
            Counter(n + Unchanged(readings, n), Remembered(readings, n), n, Naps(readings, n))
  {
    if n > 0 {
      CounterCounts(readings, n - 1);
      assert readings[..n] == readings[..n - 1] + [readings[n - 1]];
      EpochSplit(FRESH, readings[..n - 1], readings[n - 1]);
    }
  }

  /** What the system answers to one pass of the loop of `lock`. */
  datatype Pass = Pass(created: bool, written: bool, reading: Option<int>, listed: bool, launched: bool,
      createdLate: bool)

  datatype Outcome =
    | Acquired      // mkdir at the top of the loop succeeded
    | NoPidFile     // it did, but the pid file could not be written: OS_INVALID
    | TakenOver     // the last mkdir, after removing the directory of the holder, succeeded
    | GivenUp       // it did not: OS_INVALID
    | StillWaiting  // the passes ran out

  /** How a call of `lock` ends, with the passes of its loop, the seconds slept and the processes killed on the way. */
  datatype Ending = Ending(outcome: Outcome, rounds: nat, seconds: nat, kills: nat)

  /** What the answers lead to, from the counter of the current epoch on. */
  function Course(c: Counter, passes: seq<Pass>): (e: Ending)
    ensures e.rounds <= |passes|
    decreases |passes|
  {
    if passes == [] then Ending(StillWaiting, 0, 0, 0)
    else if passes[0].created then Ending(if passes[0].written then Acquired else NoPidFile, 0, 0, 0)
    else
      var d := Round(c, passes[0].reading);
      if d.i < MAX_ITERATION then After(d.slept - c.slept, 0, Course(d, passes[1..]))
      else if passes[0].listed && passes[0].launched then After(d.slept - c.slept, 1, Course(FRESH, passes[1..]))
      else Ending(if passes[0].createdLate then TakenOver else GivenUp, 1, d.slept - c.slept, 0)
  }

  /** One more round before the rest. */
  function After(seconds: nat, kills: nat, rest: Ending): Ending {
    Ending(rest.outcome, rest.rounds + 1, rest.seconds + seconds, rest.kills + kills)
  }

  /** The loop of `lock` as one process sees it, over any sequence of answers. */
  method Lock(passes: seq<Pass>) returns (outcome: Outcome, rounds: nat, seconds: nat, kills: nat)
    ensures Ending(outcome, rounds, seconds, kills) == Course(FRESH, passes)
  {
    hide Course;
    var i, savedPid := 0, NO_PID;
    rounds, seconds, kills := 0, 0, 0;
    ghost var c := FRESH;
    assert passes[0..] == passes;
    while rounds < |passes|
      invariant rounds <= |passes| && c.i == i && c.savedPid == savedPid
      invariant Course(FRESH, passes) ==
                var rest := Course(c, passes[rounds..]);
                Ending(rest.outcome, rest.rounds + rounds, rest.seconds + seconds, rest.kills + kills)
      decreases |passes| - rounds
    {
      var pass := passes[rounds];
      CourseStep(c, passes, rounds);
      if pass.created {
        return if pass.written then Acquired else NoPidFile, rounds, seconds, kills;
      }
      if pass.reading.Some? {
        var currentPid := pass.reading.value;
        if savedPid == NO_PID {
          savedPid := currentPid;
        }
        if currentPid == savedPid {
          i := i + 1;
        }
      }
      seconds := seconds + i;
      i := i + 1;
      rounds := rounds + 1;
      c := Round(c, pass.reading);
      if i >= MAX_ITERATION {
        if pass.listed && pass.launched {
          kills, i, savedPid, c := kills + 1, 0, NO_PID, FRESH;
        } else {
          return if pass.createdLate then TakenOver else GivenUp, rounds, seconds, kills;
        }
      }
    }
    CourseStep(c, passes, rounds);
    outcome := StillWaiting;
  }

  lemma CourseStep(c: Counter, passes: seq<Pass>, n: nat)
    requires n <= |passes|
    ensures n == |passes| ==> Course(c, passes[n..]) == Ending(StillWaiting, 0, 0, 0)
    ensures n < |passes| ==>
      Course(c, passes[n..]) ==
        if passes[n].created then Ending(if passes[n].written then Acquired else NoPidFile, 0, 0, 0)
        else
          var d := Round(c, passes[n].reading);
          if d.i < MAX_ITERATION then After(d.slept - c.slept, 0, Course(d, passes[n + 1..]))
          else if passes[n].listed && passes[n].launched
              then After(d.slept - c.slept, 1, Course(FRESH, passes[n + 1..]))
          else Ending(if passes[n].createdLate then TakenOver else GivenUp, 1, d.slept - c.slept, 0)
  {
    if n < |passes| {
      assert passes[n..][1..] == passes[n + 1..];
    }
  }

  function Readings(passes: seq<Pass>): (readings: seq<Option<int>>)
    ensures |readings| == |passes|
  {
    seq(|passes|, k requires 0 <= k < |passes| => passes[k].reading)
  }

  /** The first `m` passes wait, and until then the counter stays below 50. */
  ghost predicate Waits(passes: seq<Pass>, m: nat) {
    && m <= |passes|
    && (forall k :: 0 <= k < m ==> !passes[k].created)
    && (forall k: nat :: k < m ==> k + Unchanged(Readings(passes), k) < 50)
  }

  lemma CounterAfter(passes: seq<Pass>, m: nat)
    requires Waits(passes, m)
    ensures var readings := Readings(passes);
            Epoch(FRESH, readings[..m]) ==
            Counter(m + Unchanged(readings, m), Remembered(readings, m), m, Naps(readings, m))
  {
    CounterCounts(Readings(passes), m);
  }

  lemma {:induction false} CourseAfter(passes: seq<Pass>, m: nat)
    requires Waits(passes, m) && m + Unchanged(Readings(passes), m) < 50
    ensures var readings := Readings(passes);
            var rest := Course(Epoch(FRESH, readings[..m]), passes[m..]);
            Course(FRESH, passes) ==
            Ending(rest.outcome, rest.rounds + m, rest.seconds + Naps(readings, m), rest.kills)
  {
    hide Course, Round, Remembered, Unchanged;
    var readings := Readings(passes);
    if m == 0 {
      assert passes[0..] == passes && readings[..0] == [];
    } else {
      CourseAfter(passes, m - 1);
      CounterAfter(passes, m - 1);
      CounterAfter(passes, m);
      var c := Epoch(FRESH, readings[..m - 1]);
      CourseStep(c, passes, m - 1);
      assert readings[..m] == readings[..m - 1] + [readings[m - 1]];
      EpochSplit(FRESH, readings[..m - 1], readings[m - 1]);
    }
  }

  /**
   How a call goes on, epoch by epoch. If the counter reaches 50 in the `m`-th round, the holder is killed and
   the rest is a call of its own, or the lock is taken from it; until then a `mkdir` that succeeds ends the call.
   */
  lemma FirstEpoch(passes: seq<Pass>, m: nat)
    requires Waits(passes, m)
    ensures var readings := Readings(passes);
            var seconds := Naps(readings, m);
            if m + Unchanged(readings, m) < 50 then
              && (m == |passes| ==> Course(FRESH, passes) == Ending(StillWaiting, m, seconds, 0))
              && (m < |passes| && passes[m].created ==>
                    Course(FRESH, passes) == Ending(if passes[m].written then Acquired else NoPidFile, m, seconds, 0))
            else
              var last := passes[m - 1];
              if last.listed && last.launched then
                var rest := Course(FRESH, passes[m..]);
                Course(FRESH, passes) == Ending(rest.outcome, rest.rounds + m, rest.seconds + seconds, rest.kills + 1)
              else
                Course(FRESH, passes) == Ending(if last.createdLate then TakenOver else GivenUp, m, seconds, 0)
  {
    hide Course, Round, Remembered;
    var readings := Readings(passes);
    CounterAfter(passes, m);
    if m + Unchanged(readings, m) < 50 {
      CourseAfter(passes, m);
      CourseStep(Epoch(FRESH, readings[..m]), passes, m);
    } else {
      CourseAfter(passes, m - 1);
      CounterAfter(passes, m - 1);
      CourseStep(Epoch(FRESH, readings[..m - 1]), passes, m - 1);
      assert readings[..m] == readings[..m - 1] + [readings[m - 1]];
      EpochSplit(FRESH, readings[..m - 1], readings[m - 1]);
    }
  }

  /** In how many of the first `n` passes `pgrep` lists the pid that was read and `kill` can be launched. */
  function Killable(passes: seq<Pass>, n: nat): nat
    requires n <= |passes|
    decreases |passes|
  {
    if n == 0 then 0
    else (if passes[0].listed && passes[0].launched then 1 else 0) + Killable(passes[1..], n - 1)
  }

  /** Bounds on a course that starts in the middle of an epoch. */
  ghost predicate Measured(c: Counter, passes: seq<Pass>, e: Ending) {
    var rounds, seconds := c.rounds + e.rounds, c.slept + e.seconds;
    && e.rounds <= |passes|
    && 25 * e.kills <= rounds <= 50 * e.kills + 50
    && 625 * e.kills <= seconds <= 1226 * e.kills + 1226
    && (forall k :: 0 <= k < e.rounds ==> !passes[k].created)
    && (e.outcome == StillWaiting ==> e.rounds == |passes| && rounds < 50 * e.kills + 50)
    && (e.outcome == Acquired ==> e.rounds < |passes| && passes[e.rounds].created && passes[e.rounds].written)
    && (e.outcome == NoPidFile ==> e.rounds < |passes| && passes[e.rounds].created && !passes[e.rounds].written)
    && (e.outcome in {TakenOver, GivenUp} ==>
          && 0 < e.rounds <= |passes| && rounds >= 25 * e.kills + 25 && seconds >= 625 * e.kills + 625
          && !(passes[e.rounds - 1].listed && passes[e.rounds - 1].launched)
          && passes[e.rounds - 1].createdLate == (e.outcome == TakenOver))
  }

  lemma {:induction false} CourseFrom(c: Counter, passes: seq<Pass>)
    requires Paced(c)
    ensures Measured(c, passes, Course(c, passes))
    decreases |passes|
  {
    hide Paced, Spent, Round;
    SleepIsShort(c);
    if passes != [] && !passes[0].created {
      var pass, d, rest := passes[0], Round(c, passes[0].reading), passes[1..];
      RoundIsPaced(c, pass.reading);
      RoundCounts(c, pass.reading);
      if d.i < MAX_ITERATION {
        CourseFrom(d, rest);
        LaterPasses(passes, Course(d, rest).rounds);
      } else {
        SpentMeans(d);
        if pass.listed && pass.launched {
          FreshIsPaced();
          CourseFrom(FRESH, rest);
          LaterPasses(passes, Course(FRESH, rest).rounds);
        }
      }
    }
  }

  lemma RoundCounts(c: Counter, reading: Option<int>)
    ensures Round(c, reading).rounds == c.rounds + 1 && Round(c, reading).slept >= c.slept
  {
  }

  lemma SpentMeans(c: Counter)
    requires Spent(c)
    ensures 25 <= c.rounds <= 50 && 625 <= c.slept <= 1226
  {
  }

  lemma FreshIsPaced()
    ensures Paced(FRESH)
  {
  }

  lemma LaterPasses(passes: seq<Pass>, n: nat)
    requires passes != [] && n < |passes|
    ensures n < |passes| - 1 ==> passes[1..][n] == passes[n + 1]
    ensures n > 0 ==> passes[1..][n - 1] == passes[n]
    ensures (forall k :: 0 <= k < n ==> !passes[1..][k].created) ==> forall k :: 1 <= k < n + 1 ==> !passes[k].created
  {
    if forall k :: 0 <= k < n ==> !passes[1..][k].created {
      forall k | 1 <= k < n + 1 ensures !passes[k].created {
        assert passes[k] == passes[1..][k - 1];
      }
    }
  }

  /**
   Each kill takes 25 to 50 rounds and 625 to 1226 seconds, and so does giving up on the holder; and what each
   outcome is owed to.
   */
  lemma CourseIsBounded(passes: seq<Pass>)
    ensures var e := Course(FRESH, passes); Measured(FRESH, passes, e) && e.kills <= Killable(passes, e.rounds)
  {
    CourseFrom(FRESH, passes);
    KillsAreLaunched(FRESH, passes);
  }

  lemma {:induction false} KillsAreLaunched(c: Counter, passes: seq<Pass>)
    ensures var e := Course(c, passes); e.kills <= Killable(passes, e.rounds)
    decreases |passes|
  {
    hide Round;
    if passes != [] && !passes[0].created {
      KillsAreLaunched(Round(c, passes[0].reading), passes[1..]);
      KillsAreLaunched(FRESH, passes[1..]);
    }
  }

  lemma SleepIsShort(c: Counter)
    requires Paced(c)
    ensures c.rounds < 50 && c.slept <= 1226
  {
    SquareBelowFifty(c.i);
  }

  lemma SquareBelowFifty(i: nat)
    requires i < 50
    ensures i * i <= 49 * i
  {
    assert 0 <= (49 - i) * i;
  }

  // Both ends of the bounds are reached.

  function Repeat(reading: Option<int>, n: nat): (readings: seq<Option<int>>)
    ensures |readings| == n
  {
    seq(n, _ => reading)
  }

  lemma {:induction false} SteadyHolder(c: Counter, pid: int, n: nat)
    requires c.savedPid == pid != NO_PID && c.i + 2 * n <= MAX_ITERATION
    ensures Epoch(c, Repeat(Some(pid), n)) == Counter(c.i + 2 * n, pid, c.rounds + n, c.slept + n * c.i + n * n)
    decreases n
  {
    if n > 0 {
      var readings := Repeat(Some(pid), n);
      var d := Round(c, Some(pid));
      assert readings[1..] == Repeat(Some(pid), n - 1);
      SteadyHolder(d, pid, n - 1);
      ByTwos(c.i, n);
    }
  }

  lemma ByTwos(i: nat, n: int)
    ensures (n - 1) * (i + 2) + (n - 1) * (n - 1) + i + 1 == n * i + n * n
  {
  }

  /** `i + (i + 1) + ... `, n terms. */
  function Ramp(i: nat, n: nat): nat
    decreases n
  {
    if n == 0 then 0 else i + Ramp(i + 1, n - 1)
  }

  lemma {:induction false} RampSum(i: nat, n: nat)
    ensures 2 * Ramp(i, n) == 2 * (n * i) + n * n - n
    decreases n
  {
    if n > 0 {
      RampSum(i + 1, n - 1);
      assert (n - 1) * (i + 1) == n * i + n - i - 1;
      assert (n - 1) * (n - 1) == n * n - 2 * n + 1;
    }
  }

  lemma {:induction false} SilentFile(c: Counter, n: nat, last: Option<int>)
    requires c.i + n < MAX_ITERATION
    ensures Epoch(c, Repeat(None, n) + [last])
        == Round(Counter(c.i + n, c.savedPid, c.rounds + n, c.slept + Ramp(c.i, n)), last)
    decreases n
  {
    var readings := Repeat(None, n) + [last];
    if n == 0 {
      assert Epoch(Round(c, last), readings[1..]) == Round(c, last);
    } else {
      assert readings[1..] == Repeat(None, n - 1) + [last];
      SilentFile(Round(c, None), n - 1, last);
    }
  }

  /**
   A holder that keeps its pid is attacked after 25 rounds and 625 seconds; a file that turns readable at the
   last moment gives 50 and 1226.
   */
  lemma BoundsAreAttained()
    ensures exists readings :: var d := Epoch(FRESH, readings); d.i >= MAX_ITERATION && d.rounds == 25 && d.slept == 625
    ensures exists readings :: var d := Epoch(FRESH, readings);
        d.i >= MAX_ITERATION && d.rounds == 50 && d.slept == 1226
  {
    var steady := Repeat(Some(7), 25);
    var d := Round(FRESH, Some(7));
    SteadyHolder(d, 7, 24);
    assert steady[1..] == Repeat(Some(7), 24);
    assert Epoch(FRESH, steady) == Epoch(d, steady[1..]);
    SilentFile(FRESH, 49, Some(7));
    RampSum(0, 49);
  }
}
