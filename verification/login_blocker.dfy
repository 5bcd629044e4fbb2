/**
 The login blocker of the API: failed logins are counted per host by the error handler, and the
 middleware in front of the login endpoints turns a host away once it has failed often enough,
 until its entry expires.
 */
module LoginBlocker {
  import opened Options

  type Host = string

  datatype Entry = Entry(attempts: nat, timestamp: real)

  /** `ip_stats` and `ip_block`. */
  datatype Blocker = Blocker(stats: map<Host, Entry>, block: set<Host>)

  const EMPTY: Blocker := Blocker(map[], {})

  predicate Expired(b: Blocker, h: Host, now: real, blockTime: int) {
    h in b.stats && now - blockTime as real >= b.stats[h].timestamp
  }

  function Checked(b: Blocker, h: Host, now: real, blockTime: int): Blocker {
    if Expired(b, h, now, blockTime) then Blocker(b.stats - {h}, b.block - {h}) else b
  }

  function Counted(b: Blocker, h: Host, now: real, attempts: int): Blocker {
    var entry := if h in b.stats then b.stats[h].(attempts := b.stats[h].attempts + 1) else Entry(1, now);
    Blocker(b.stats[h := entry], if entry.attempts >= attempts then b.block + {h} else b.block)
  }

  /** The module globals and the two functions that change them. */
  class Access {
    var ipStats: map<Host, Entry>
    var ipBlock: set<Host>

    function Now(): Blocker
      reads this
    {
      Blocker(ipStats, ipBlock)
    }

    constructor ()
      ensures Now() == EMPTY
    {
      ipStats, ipBlock := map[], {};
    }

    /** `check_blocked_ip`; `refused` is the 403 it raises. */
    method CheckBlockedIp(host: Host, now: real, blockTime: int) returns (refused: bool)
      modifies this
      ensures Now() == Checked(old(Now()), host, now, blockTime)
      ensures refused <==> host in Now().block
    {
      if host in ipStats && now - blockTime as real >= ipStats[host].timestamp {
        ipStats := ipStats - {host};
        if host in ipBlock {
          ipBlock := ipBlock - {host};
        }
      }
      refused := host in ipBlock;
    }

    /** `prevent_bruteforce_attack` on a login request. */
    method PreventBruteforceAttack(host: Host, now: real, attempts: int)
      modifies this
      ensures Now() == Counted(old(Now()), host, now, attempts)
    {
      if host !in ipStats {
        ipStats := ipStats[host := Entry(1, now)];
      } else {
        ipStats := ipStats[host := ipStats[host].(attempts := ipStats[host].attempts + 1)];
      }
      if ipStats[host].attempts >= attempts {
        ipBlock := ipBlock + {host};
      }
    }
  }

  /** One request at a login endpoint goes through `Arrive` and, if admitted, later through one of the other two. */
  datatype Event = Arrive(h: Host, at: real) | Reject(h: Host, at: real) | Accept(h: Host, at: real)

  /** `max_login_attempts`, `block_time`, and how many logins of one host the server runs at a time. */
  datatype Config = Config(max: int, blockTime: int, parallel: nat)

  datatype State = State(b: Blocker, inFlight: multiset<Host>)

  const START: State := State(EMPTY, multiset{})

  function Next(cfg: Config, s: State, e: Event): Option<State> {
    match e
    case Arrive(h, at) =>
      var b := Checked(s.b, h, at, cfg.blockTime);
      if h in b.block then Some(State(b, s.inFlight))
      else if s.inFlight[h] < cfg.parallel then Some(State(b, s.inFlight + multiset{h}))
      else None
    case Reject(h, at) =>
      if h in s.inFlight then Some(State(Counted(s.b, h, at, cfg.max), s.inFlight - multiset{h})) else None
    case Accept(h, _) =>
      if h in s.inFlight then Some(State(s.b, s.inFlight - multiset{h})) else None
  }

  function Run(cfg: Config, s: State, events: seq<Event>): Option<State>
    decreases |events|
  {
    if events == [] then Some(s)
    else match Next(cfg, s, events[0]) case None => None case Some(t) => Run(cfg, t, events[1..])
  }

  ghost predicate BlockedMeansFailedOften(cfg: Config, b: Blocker) {
    && (forall h :: h in b.block <==> h in b.stats && b.stats[h].attempts >= cfg.max)
    && (forall h :: h in b.stats ==> b.stats[h].attempts >= 1)
  }

  /** Once a host is blocked, only logins already in flight can add to its entry. */
  ghost predicate Bounded(cfg: Config, s: State) {
    && (forall h :: s.inFlight[h] <= cfg.parallel)
    && (forall h :: h in s.b.stats && s.b.stats[h].attempts >= cfg.max ==>
          s.b.stats[h].attempts + s.inFlight[h] <= cfg.max + cfg.parallel - 1)
  }

  ghost predicate Good(cfg: Config, s: State) {
    BlockedMeansFailedOften(cfg, s.b) && (cfg.max >= 1 ==> Bounded(cfg, s))
  }

  lemma StepKeepsGood(cfg: Config, s: State, e: Event)
    requires Good(cfg, s) && Next(cfg, s, e).Some?
    ensures Good(cfg, Next(cfg, s, e).value)
  {
    match e {
      case Arrive(h, at) => ArrivalKeepsGood(cfg, s, h, at);
      case Reject(h, at) => FailureKeepsGood(cfg, s, h, at);
      case Accept(_, _) =>
    }
  }

  lemma ArrivalKeepsGood(cfg: Config, s: State, h: Host, at: real)
    requires Good(cfg, s) && Next(cfg, s, Arrive(h, at)).Some?
    ensures Good(cfg, Next(cfg, s, Arrive(h, at)).value)
  {
  }

  lemma FailureKeepsGood(cfg: Config, s: State, h: Host, at: real)
    requires Good(cfg, s) && h in s.inFlight
    ensures Good(cfg, State(Counted(s.b, h, at, cfg.max), s.inFlight - multiset{h}))
  {
  }

  lemma {:induction false} RunKeepsGood(cfg: Config, s: State, events: seq<Event>)
    requires Good(cfg, s) && Run(cfg, s, events).Some?
    ensures Good(cfg, Run(cfg, s, events).value)
    decreases |events|
  {
    if events != [] {
      StepKeepsGood(cfg, s, events[0]);
      RunKeepsGood(cfg, Next(cfg, s, events[0]).value, events[1..]);
    }
  }

  /**
   After any run a host is blocked exactly when its entry holds the configured number of failures,
   and no entry holds more than that plus the logins that can have been in flight.
   */
  lemma BlockedIffFailedOften(cfg: Config, events: seq<Event>, h: Host)
    requires Run(cfg, START, events).Some?
    ensures var b := Run(cfg, START, events).value.b;
            && (h in b.block <==> h in b.stats && b.stats[h].attempts >= cfg.max)
            && (cfg.max >= 1 && h in b.stats ==> b.stats[h].attempts <= cfg.max + cfg.parallel - 1)
  {
    RunKeepsGood(cfg, START, events);
  }

  /** A blocked host is turned away exactly until its entry is `blockTime` old; then its record is clean. */
  lemma BlockEndsOnTime(cfg: Config, events: seq<Event>, h: Host, at: real)
    requires Run(cfg, START, events).Some?
    requires h in Run(cfg, START, events).value.b.block
    ensures var b := Run(cfg, START, events).value.b;
            var c := Checked(b, h, at, cfg.blockTime);
            && h in b.stats
            && (h in c.block <==> at < b.stats[h].timestamp + cfg.blockTime as real)
            && (h !in c.block ==> h !in c.stats)
  {
    RunKeepsGood(cfg, START, events);
  }

  /**
   A check lets go of every entry that is `blockTime` old, whether its host is blocked or not, and leaves
   everything else as it was.
   */
  lemma CheckForgetsOldEntries(b: Blocker, h: Host, at: real, blockTime: int, q: Host)
    ensures var c := Checked(b, h, at, blockTime);
            && (h in c.stats <==> h in b.stats && at < b.stats[h].timestamp + blockTime as real)
            && (h in c.stats ==> c.stats[h] == b.stats[h])
            && (h in c.block <==> h in b.block && (h in b.stats ==> h in c.stats))
            && (q != h ==> (q in c.stats <==> q in b.stats) && (q in c.block <==> q in b.block))
            && (q != h && q in b.stats ==> c.stats[q] == b.stats[q])
  {
  }

  /** The record of `h` that its own events call for: failures since the last arrival that found none, or an old one. */
  function Record(blockTime: int, events: seq<Event>, h: Host): Option<Entry>
    decreases |events|
  {
    if events == [] then None
    else
      var n := |events| - 1;
      var before, e := Record(blockTime, events[..n], h), events[n];
      if e.h != h then before
      else match e
        case Arrive(_, at) =>
          if before.Some? && at < before.value.timestamp + blockTime as real then before else None
        case Reject(_, at) =>
          if before.Some? then Some(Entry(before.value.attempts + 1, before.value.timestamp)) else Some(Entry(1, at))
        case Accept(_, _) => before
  }

  /** An arrival of `h` that finds no record, or one that is too old. */
  predicate StartsOver(blockTime: int, before: seq<Event>, e: Event, h: Host) {
    && e.Arrive? && e.h == h
    && var record := Record(blockTime, before, h);
       record.None? || e.at >= record.value.timestamp + blockTime as real
  }

  /** How many events there are up to the last such arrival. */
  function LastStart(blockTime: int, events: seq<Event>, h: Host): (n: nat)
    ensures n <= |events|
    decreases |events|
  {
    if events == [] then 0
    else
      var n := |events| - 1;
      if StartsOver(blockTime, events[..n], events[n], h) then n + 1 else LastStart(blockTime, events[..n], h)
  }

  /** The failures of `h` in order. */
  function FailureTimes(events: seq<Event>, h: Host): seq<real>
    decreases |events|
  {
    if events == [] then []
    else
      var n := |events| - 1;
      FailureTimes(events[..n], h) + if events[n].Reject? && events[n].h == h then [events[n].at] else []
  }

  /** A record holds the number and the first time of the failures since the last arrival that started over. */
  lemma {:induction false} RecordCountsFailures(blockTime: int, events: seq<Event>, h: Host)
    ensures var times := FailureTimes(events[LastStart(blockTime, events, h)..], h);
            Record(blockTime, events, h) == if times == [] then None else Some(Entry(|times|, times[0]))
    decreases |events|
  {
    if events != [] {
      var n := |events| - 1;
      var before, e := events[..n], events[n];
      RecordCountsFailures(blockTime, before, h);
      if StartsOver(blockTime, before, e, h) {
        assert events[n + 1..] == [];
      } else {
        var m := LastStart(blockTime, before, h);
        assert events[m..][..n - m] == before[m..] && events[m..][n - m] == e;
      }
    }
  }

  lemma {:induction false} RunSplit(cfg: Config, s: State, events: seq<Event>, e: Event)
    ensures Run(cfg, s, events + [e]) ==
            match Run(cfg, s, events) case None => None case Some(t) => Next(cfg, t, e)
    decreases |events|
  {
    hide Next;
    if events == [] {
      assert [] + [e] == [e] && [e][1..] == [];
    } else {
      assert (events + [e])[1..] == events[1..] + [e];
      if Next(cfg, s, events[0]).Some? {
        RunSplit(cfg, Next(cfg, s, events[0]).value, events[1..], e);
      }
    }
  }

  ghost function EntryOf(b: Blocker, h: Host): Option<Entry> {
    if h in b.stats then Some(b.stats[h]) else None
  }

  /** In every reachable state the entry of a host is the record that its own events call for. */
  lemma {:induction false} EntriesAreRecords(cfg: Config, events: seq<Event>, h: Host)
    requires Run(cfg, START, events).Some?
    ensures EntryOf(Run(cfg, START, events).value.b, h) == Record(cfg.blockTime, events, h)
    decreases |events|
  {
    hide Run;
    if events == [] {
      NothingRun(cfg);
    } else {
      var n := |events| - 1;
      var before, e := events[..n], events[n];
      assert events == before + [e];
      RunSplit(cfg, START, before, e);
      EntriesAreRecords(cfg, before, h);
    }
  }

  lemma NothingRun(cfg: Config)
    ensures Run(cfg, START, []) == Some(START)
  {
  }

  /** What happens to one host does not depend on the others: dropping their events drops nothing of its own. */
  function Of(events: seq<Event>, h: Host): seq<Event>
    decreases |events|
  {
    if events == [] then [] else (if events[0].h == h then [events[0]] else []) + Of(events[1..], h)
  }

  ghost predicate AgreeOn(s: State, t: State, h: Host) {
    && (h in s.b.stats <==> h in t.b.stats)
    && (h in s.b.stats ==> s.b.stats[h] == t.b.stats[h])
    && (h in s.b.block <==> h in t.b.block)
    && s.inFlight[h] == t.inFlight[h]
  }

  lemma OwnStep(cfg: Config, s: State, t: State, e: Event, h: Host)
    requires Next(cfg, s, e).Some? && AgreeOn(s, t, h) && e.h == h
    ensures Next(cfg, t, e).Some? && AgreeOn(Next(cfg, s, e).value, Next(cfg, t, e).value, h)
  {
  }

  lemma OthersStep(cfg: Config, s: State, t: State, e: Event, h: Host)
    requires Next(cfg, s, e).Some? && AgreeOn(s, t, h) && e.h != h
    ensures AgreeOn(Next(cfg, s, e).value, t, h)
  {
  }

  lemma {:induction false} HostsAreIndependent(cfg: Config, s: State, t: State, events: seq<Event>, h: Host)
    requires Run(cfg, s, events).Some? && AgreeOn(s, t, h)
    ensures Run(cfg, t, Of(events, h)).Some?
    ensures AgreeOn(Run(cfg, s, events).value, Run(cfg, t, Of(events, h)).value, h)
    decreases |events|
  {
    hide Next, AgreeOn;
    if events != [] {
      var e, own := events[0], Of(events, h);
      var next := Next(cfg, s, e).value;
      if e.h == h {
        assert own == [e] + Of(events[1..], h) && own[1..] == Of(events[1..], h);
        OwnStep(cfg, s, t, e, h);
        HostsAreIndependent(cfg, next, Next(cfg, t, e).value, events[1..], h);
      } else {
        assert own == Of(events[1..], h);
        OthersStep(cfg, s, t, e, h);
        HostsAreIndependent(cfg, next, t, events[1..], h);
      }
    }
  }

  // How fast passwords can be tried.

  /** The failures of `h` recorded in the `length` seconds from `from`. */
  function Failures(events: seq<Event>, h: Host, from: real, length: real): nat
    decreases |events|
  {
    if events == [] then 0
    else (if events[0].Reject? && events[0].h == h && from <= events[0].at < from + length then 1 else 0)
         + Failures(events[1..], h, from, length)
  }

  ghost predicate Chronological(events: seq<Event>, since: real) {
    forall k :: 0 <= k < |events| ==> since <= events[k].at && forall j :: 0 <= j < k ==> events[j].at <= events[k].at
  }

  /** The most failures an entry can record, when `parallel` is not zero. */
  function Limit(cfg: Config): int {
    cfg.max + cfg.parallel - 1
  }

  /** `n` failures of `h` have been counted in the window so far; the last event was at `last`. */
  ghost predicate Paced(cfg: Config, s: State, h: Host, from: real, last: real, n: nat) {
    if last < from then n == 0
    else if last >= from + cfg.blockTime as real then n <= 2 * Limit(cfg) - 1
    else if h !in s.b.stats then n <= Limit(cfg) - 1
    else if s.b.stats[h].timestamp < from then n <= s.b.stats[h].attempts - 1
    else n <= Limit(cfg) - 1 + s.b.stats[h].attempts
  }

  lemma StepIsPaced(cfg: Config, s: State, e: Event, h: Host, from: real, last: real, n: nat)
    requires cfg.max >= 1 && cfg.parallel >= 1 && last <= e.at
    requires Good(cfg, s) && Next(cfg, s, e).Some? && Paced(cfg, s, h, from, last, n)
    ensures Paced(cfg, Next(cfg, s, e).value, h, from, e.at, n + Failures([e], h, from, cfg.blockTime as real))
  {
    StepKeepsGood(cfg, s, e);
    var t := Next(cfg, s, e).value;
    if h in s.b.stats {
      assert 1 <= s.b.stats[h].attempts <= Limit(cfg);
    }
    if h in t.b.stats {
      assert 1 <= t.b.stats[h].attempts <= Limit(cfg);
    }
    assert Failures([e], h, from, cfg.blockTime as real) ==
      if e.Reject? && e.h == h && from <= e.at < from + cfg.blockTime as real then 1 else 0;
  }

  lemma {:induction false} RunIsPaced(cfg: Config, s: State, events: seq<Event>, h: Host, from: real, last: real,
      n: nat)
    requires cfg.max >= 1 && cfg.parallel >= 1 && Chronological(events, last)
    requires Good(cfg, s) && Run(cfg, s, events).Some? && Paced(cfg, s, h, from, last, n)
    ensures n + Failures(events, h, from, cfg.blockTime as real) <= 2 * Limit(cfg) - 1
    decreases |events|
  {
    if events == [] {
      if h in s.b.stats {
        assert s.b.stats[h].attempts <= Limit(cfg);
      }
    } else {
      var e := events[0];
      StepKeepsGood(cfg, s, e);
      StepIsPaced(cfg, s, e, h, from, last, n);
      assert Chronological(events[1..], e.at) by {
        forall k | 0 <= k < |events[1..]|
          ensures e.at <= events[1..][k].at && forall j :: 0 <= j < k ==> events[1..][j].at <= events[1..][k].at
        {
          assert events[1..][k] == events[k + 1];
        }
      }
      RunIsPaced(cfg, Next(cfg, s, e).value, events[1..], h, from, e.at,
          n + Failures([e], h, from, cfg.blockTime as real));
    }
  }

  /** Where no login is ever let through, none fails. */
  lemma {:induction false} NobodyIsIn(cfg: Config, s: State, events: seq<Event>, h: Host, from: real, length: real)
    requires cfg.parallel == 0 && s.inFlight == multiset{} && Run(cfg, s, events).Some?
    ensures Failures(events, h, from, length) == 0
    decreases |events|
  {
    if events != [] {
      NobodyIsIn(cfg, Next(cfg, s, events[0]).value, events[1..], h, from, length);
    }
  }

  /**
   In any `block_time` seconds a host fails fewer than two entries' worth of logins (an entry records the
   configured attempts, and what can be in flight besides the last of them), however the requests are timed.
   */
  lemma GuessingIsSlow(cfg: Config, events: seq<Event>, h: Host, from: real)
    requires cfg.max >= 1
    requires Run(cfg, START, events).Some? && forall j, k :: 0 <= j < k < |events| ==> events[j].at <= events[k].at
    ensures Failures(events, h, from, cfg.blockTime as real)
         <= if cfg.parallel == 0 then 0 else 2 * (cfg.max + cfg.parallel - 1) - 1
  {
    if cfg.parallel == 0 {
      NobodyIsIn(cfg, START, events, h, from, cfg.blockTime as real);
    } else if events != [] {
      var since := if events[0].at < from then events[0].at else from - 1.0;
      RunIsPaced(cfg, START, events, h, from, since, 0);
    }
  }

  // The bound is attained.

  function Arrivals(h: Host, at: real, n: nat): seq<Event>
    decreases n
  {
    if n == 0 then [] else [Arrive(h, at)] + Arrivals(h, at, n - 1)
  }

  function Rejects(h: Host, at: real, n: nat): seq<Event>
    decreases n
  {
    if n == 0 then [] else [Reject(h, at)] + Rejects(h, at, n - 1)
  }

  /** One login after the other. */
  function Retries(h: Host, at: real, n: nat): seq<Event>
    decreases n
  {
    if n == 0 then [] else [Arrive(h, at), Reject(h, at)] + Retries(h, at, n - 1)
  }

  /**
   All logins that fit are started, one fails first, then one after the other up to the limit, then those
   still in flight.
   */
  function Wave(cfg: Config, h: Host, first: real, rest: real): seq<Event>
    requires cfg.max >= 1 && cfg.parallel >= 1
  {
    Arrivals(h, first, cfg.parallel) + [Reject(h, first)] + Retries(h, rest, cfg.max - 1)
        + Rejects(h, rest, cfg.parallel - 1)
  }

  function Flying(h: Host, n: nat): multiset<Host> {
    multiset{}[h := n]
  }

  /** Only `h` has an entry. */
  function OnlyEntry(cfg: Config, h: Host, attempts: nat, timestamp: real): Blocker {
    Blocker(map[h := Entry(attempts, timestamp)], if attempts >= cfg.max then {h} else {})
  }

  lemma {:induction false} RunAppend(cfg: Config, s: State, first: seq<Event>, second: seq<Event>)
    requires Run(cfg, s, first).Some?
    ensures Run(cfg, s, first + second) == Run(cfg, Run(cfg, s, first).value, second)
    decreases |first|
  {
    if first == [] {
      assert first + second == second;
    } else {
      assert (first + second)[1..] == first[1..] + second;
      RunAppend(cfg, Next(cfg, s, first[0]).value, first[1..], second);
    }
  }

  lemma FlyingMore(h: Host, n: nat)
    ensures Flying(h, n) + multiset{h} == Flying(h, n + 1) && Flying(h, n + 1) - multiset{h} == Flying(h, n)
  {
  }

  lemma {:induction false} RunArrivals(cfg: Config, b: Blocker, h: Host, at: real, k: nat, n: nat)
    requires k + n <= cfg.parallel && Checked(b, h, at, cfg.blockTime) == EMPTY
    ensures Run(cfg, State(b, Flying(h, k)), Arrivals(h, at, n))
        == Some(State(if n == 0 then b else EMPTY, Flying(h, k + n)))
    decreases n
  {
    hide Flying;
    if n > 0 {
      FlyingMore(h, k);
      FlyingHas(h, k);
      RunArrivals(cfg, EMPTY, h, at, k + 1, n - 1);
    }
  }

  lemma FlyingHas(h: Host, n: nat)
    ensures Flying(h, n)[h] == n && (n > 0 ==> h in Flying(h, n))
  {
  }

  lemma {:induction false} RunRetries(cfg: Config, h: Host, attempts: nat, timestamp: real, at: real, k: nat, n: nat)
    requires k < cfg.parallel && attempts + n <= cfg.max && at < timestamp + cfg.blockTime as real
    ensures Run(cfg, State(OnlyEntry(cfg, h, attempts, timestamp), Flying(h, k)), Retries(h, at, n))
         == Some(State(OnlyEntry(cfg, h, attempts + n, timestamp), Flying(h, k)))
    decreases n
  {
    hide Flying;
    if n > 0 {
      FlyingMore(h, k);
      FlyingHas(h, k);
      FlyingHas(h, k + 1);
      var s := State(OnlyEntry(cfg, h, attempts, timestamp), Flying(h, k));
      var b := OnlyEntry(cfg, h, attempts + 1, timestamp);
      assert Next(cfg, s, Arrive(h, at)) == Some(State(s.b, Flying(h, k + 1)));
      CountedOnly(cfg, h, attempts, timestamp, at);
      assert Next(cfg, State(s.b, Flying(h, k + 1)), Reject(h, at)) == Some(State(b, Flying(h, k)));
      RunRetries(cfg, h, attempts + 1, timestamp, at, k, n - 1);
      TwoSteps(cfg, s, Arrive(h, at), Reject(h, at), Retries(h, at, n - 1));
    }
  }

  lemma TwoSteps(cfg: Config, s: State, d: Event, e: Event, rest: seq<Event>)
    requires Next(cfg, s, d).Some? && Next(cfg, Next(cfg, s, d).value, e).Some?
    ensures Run(cfg, s, [d, e] + rest) == Run(cfg, Next(cfg, Next(cfg, s, d).value, e).value, rest)
  {
    assert ([d, e] + rest)[1..] == [e] + rest && ([e] + rest)[1..] == rest;
  }

  lemma RejectStep(cfg: Config, h: Host, attempts: nat, timestamp: real, at: real, n: nat, rest: seq<Event>)
    requires n > 0
    ensures Run(cfg, State(OnlyEntry(cfg, h, attempts, timestamp), Flying(h, n)), [Reject(h, at)] + rest)
         == Run(cfg, State(OnlyEntry(cfg, h, attempts + 1, timestamp), Flying(h, n - 1)), rest)
  {
    hide Flying, OnlyEntry, Counted, Checked;
    FlyingMore(h, n - 1);
    FlyingHas(h, n);
    CountedOnly(cfg, h, attempts, timestamp, at);
    assert ([Reject(h, at)] + rest)[1..] == rest;
  }

  lemma {:induction false} RunRejects(cfg: Config, h: Host, attempts: nat, timestamp: real, at: real, n: nat)
    ensures Run(cfg, State(OnlyEntry(cfg, h, attempts, timestamp), Flying(h, n)), Rejects(h, at, n))
         == Some(State(OnlyEntry(cfg, h, attempts + n, timestamp), Flying(h, 0)))
    decreases n
  {
    hide Flying, OnlyEntry, Next;
    if n > 0 {
      RejectStep(cfg, h, attempts, timestamp, at, n, Rejects(h, at, n - 1));
      RunRejects(cfg, h, attempts + 1, timestamp, at, n - 1);
    }
  }

  lemma CountedOnly(cfg: Config, h: Host, attempts: nat, timestamp: real, at: real)
    ensures Counted(OnlyEntry(cfg, h, attempts, timestamp), h, at, cfg.max) ==
            OnlyEntry(cfg, h, attempts + 1, timestamp)
  {
  }

  lemma FirstReject(cfg: Config, h: Host, at: real)
    requires cfg.parallel >= 1
    ensures Run(cfg, State(EMPTY, Flying(h, cfg.parallel)), [Reject(h, at)])
        == Some(State(OnlyEntry(cfg, h, 1, at), Flying(h, cfg.parallel - 1)))
  {
    FlyingMore(h, cfg.parallel - 1);
    FlyingHas(h, cfg.parallel);
    assert Counted(EMPTY, h, at, cfg.max) == OnlyEntry(cfg, h, 1, at);
    assert [Reject(h, at)][1..] == [];
  }

  /** A wave that finds no entry, or one that expires, fills a new entry to the limit. */
  lemma RunWave(cfg: Config, b: Blocker, h: Host, first: real, rest: real)
    requires cfg.max >= 1 && cfg.parallel >= 1 && rest < first + cfg.blockTime as real
        && Checked(b, h, first, cfg.blockTime) == EMPTY
    ensures Run(cfg, State(b, Flying(h, 0)), Wave(cfg, h, first, rest))
         == Some(State(OnlyEntry(cfg, h, cfg.max + cfg.parallel - 1, first), Flying(h, 0)))
  {
    hide Run, Flying, Checked;
    var s := State(b, Flying(h, 0));
    var arrivals, retries := Arrivals(h, first, cfg.parallel), Retries(h, rest, cfg.max - 1);
    RunArrivals(cfg, b, h, first, 0, cfg.parallel);
    FirstReject(cfg, h, first);
    RunRetries(cfg, h, 1, first, rest, cfg.parallel - 1, cfg.max - 1);
    RunRejects(cfg, h, cfg.max, first, rest, cfg.parallel - 1);
    RunAppend(cfg, s, arrivals, [Reject(h, first)]);
    RunAppend(cfg, s, arrivals + [Reject(h, first)], retries);
    RunAppend(cfg, s, arrivals + [Reject(h, first)] + retries, Rejects(h, rest, cfg.parallel - 1));
  }

  lemma {:induction false} FailuresAppend(first: seq<Event>, second: seq<Event>, h: Host, from: real, length: real)
    ensures Failures(first + second, h, from, length)
        == Failures(first, h, from, length) + Failures(second, h, from, length)
    decreases |first|
  {
    if first == [] {
      assert first + second == second;
    } else {
      assert (first + second)[1..] == first[1..] + second;
      FailuresAppend(first[1..], second, h, from, length);
    }
  }

  lemma {:induction false} FailuresOf(h: Host, at: real, n: nat, from: real, length: real)
    requires from <= at < from + length
    ensures Failures(Rejects(h, at, n), h, from, length) == n == Failures(Retries(h, at, n), h, from, length)
    decreases n
  {
    if n > 0 {
      FailuresOf(h, at, n - 1, from, length);
      FailuresAppend([Arrive(h, at), Reject(h, at)], Retries(h, at, n - 1), h, from, length);
      assert [Arrive(h, at), Reject(h, at)][1..] == [Reject(h, at)] && [Reject(h, at)][1..] == [];
      assert Failures([Arrive(h, at), Reject(h, at)], h, from, length)
          == Failures([Reject(h, at)], h, from, length) == 1;
    }
  }

  lemma {:induction false} NoFailuresOf(h: Host, at: real, n: nat, from: real, length: real)
    ensures Failures(Arrivals(h, at, n), h, from, length) == 0
    decreases n
  {
    if n > 0 {
      NoFailuresOf(h, at, n - 1, from, length);
    }
  }

  lemma FailuresOfWave(cfg: Config, h: Host, first: real, rest: real, from: real, length: real)
    requires cfg.max >= 1 && cfg.parallel >= 1 && first <= rest && from <= rest < from + length
    ensures Failures(Wave(cfg, h, first, rest), h, from, length)
         == cfg.max + cfg.parallel - 1 - if first < from then 1 else 0
  {
    hide Failures;
    var arrivals, retries := Arrivals(h, first, cfg.parallel), Retries(h, rest, cfg.max - 1);
    NoFailuresOf(h, first, cfg.parallel, from, length);
    OneFailure(h, first, from, length);
    FailuresOf(h, rest, cfg.max - 1, from, length);
    FailuresOf(h, rest, cfg.parallel - 1, from, length);
    FailuresAppend(arrivals, [Reject(h, first)], h, from, length);
    FailuresAppend(arrivals + [Reject(h, first)], retries, h, from, length);
    FailuresAppend(arrivals + [Reject(h, first)] + retries, Rejects(h, rest, cfg.parallel - 1), h, from, length);
  }

  lemma OneFailure(h: Host, at: real, from: real, length: real)
    ensures Failures([Reject(h, at)], h, from, length) == if from <= at < from + length then 1 else 0
  {
    assert [Reject(h, at)][1..] == [];
  }

  ghost predicate Within(events: seq<Event>, low: real, high: real) {
    && (forall k :: 0 <= k < |events| ==> low <= events[k].at <= high)
    && (forall j, k :: 0 <= j < k < |events| ==> events[j].at <= events[k].at)
  }

  lemma WithinAppend(first: seq<Event>, second: seq<Event>, low: real, middle: real, high: real)
    requires Within(first, low, middle) && Within(second, middle, high) && low <= middle <= high
    ensures Within(first + second, low, high)
  {
  }

  lemma {:induction false} AtOnce(h: Host, at: real, n: nat)
    ensures Within(Arrivals(h, at, n), at, at) && Within(Rejects(h, at, n), at, at) && Within(Retries(h, at, n), at, at)
    decreases n
  {
    if n > 0 {
      AtOnce(h, at, n - 1);
    }
  }

  lemma WaveIsChronological(cfg: Config, h: Host, first: real, rest: real)
    requires cfg.max >= 1 && cfg.parallel >= 1 && first <= rest
    ensures Within(Wave(cfg, h, first, rest), first, rest)
  {
    hide Within;
    var arrivals, retries := Arrivals(h, first, cfg.parallel), Retries(h, rest, cfg.max - 1);
    AtOnce(h, first, cfg.parallel);
    AtOnce(h, first, 1);
    assert Rejects(h, first, 1) == [Reject(h, first)] + Rejects(h, first, 0) == [Reject(h, first)];
    AtOnce(h, rest, cfg.max - 1);
    AtOnce(h, rest, cfg.parallel - 1);
    WithinAppend(arrivals, [Reject(h, first)], first, first, first);
    WithinAppend(retries, Rejects(h, rest, cfg.parallel - 1), rest, rest, rest);
    WithinAppend(arrivals + [Reject(h, first)], retries + Rejects(h, rest, cfg.parallel - 1), first, rest, rest);
    assert Wave(cfg, h, first, rest) == arrivals + [Reject(h, first)] + (retries + Rejects(h, rest, cfg.parallel - 1));
  }

  /** One wave of which only the first failure is before the interval, and a second when the entry has expired. */
  lemma BoundIsAttained(cfg: Config, h: Host) returns (events: seq<Event>, from: real)
    requires cfg.max >= 1 && cfg.parallel >= 1 && cfg.blockTime >= 1
    ensures Run(cfg, START, events).Some? && forall j, k :: 0 <= j < k < |events| ==> events[j].at <= events[k].at
    ensures Failures(events, h, from, cfg.blockTime as real) == 2 * (cfg.max + cfg.parallel - 1) - 1
  {
    hide Run, Failures, Wave;
    var block := cfg.blockTime as real;
    var first, second := Wave(cfg, h, 0.0, 0.5), Wave(cfg, h, block, block);
    assert START == State(EMPTY, Flying(h, 0));
    RunWave(cfg, EMPTY, h, 0.0, 0.5);
    var b := OnlyEntry(cfg, h, cfg.max + cfg.parallel - 1, 0.0);
    assert Checked(b, h, block, cfg.blockTime) == EMPTY;
    RunWave(cfg, b, h, block, block);
    RunAppend(cfg, START, first, second);
    FailuresOfWave(cfg, h, 0.0, 0.5, 0.5, block);
    FailuresOfWave(cfg, h, block, block, 0.5, block);
    FailuresAppend(first, second, h, 0.5, block);
    WaveIsChronological(cfg, h, 0.0, 0.5);
    WaveIsChronological(cfg, h, block, block);
    WithinLater(first, 0.0, 0.5, block);
    WithinAppend(first, second, 0.0, block, block);
    events, from := first + second, 0.5;
  }

  lemma WithinLater(events: seq<Event>, low: real, high: real, higher: real)
    requires Within(events, low, high) && high <= higher
    ensures Within(events, low, higher)
  {
  }
}
