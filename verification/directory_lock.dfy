/**
 The directory lock shared by the active-response programs, as a state machine: any number of
 processes take steps of `lock`, of their critical section and of `unlock` in any order.
 One step is one system call.
 */
module DirectoryLock {
  import opened Options
  import opened Backoff

  type Pid = nat

  /** The lock directory; when it exists, the number in its pid file if there is one. */
  datatype Directory = Absent | Present(pidFile: Option<int>)

  /** Why a process is running `unlock`. */
  datatype Reason = Leaving | AfterKill | LastChance

  /** Where a process is. `current` is the pid it last read, `NO_PID` if it could not. */
  datatype Place =
    | Trying                            // about to call mkdir at the top of the loop
    | Entering                          // mkdir succeeded, pid file not written yet
    | Reading                           // mkdir failed, about to read the pid file
    | Sleeping(current: int)            // pid file looked at
    | Killing(current: int)             // the counter has run out
    | Removing(why: Reason)             // first rmdir of unlock
    | Emptying(why: Reason)             // directory was not empty: delete its contents
    | RemovingAgain(why: Reason)        // second rmdir
    | Retrying                          // last mkdir after stealing
    | EnteringLate                      // that mkdir succeeded
    | Critical
    | Finished
    | Refused                           // lock returned OS_INVALID
    | Dead

  datatype Process = Process(place: Place, counter: Counter)

  /**
   `steals` counts directories removed by a process that was not leaving its own critical section;
   `killed` counts processes that were killed while they believed they held the lock.
   */
  datatype State = State(dir: Directory, procs: map<Pid, Process>, steals: nat, killed: nat)

  /** One step of process `p`; the flags are the outcomes the operating system decides. */
  datatype Step =
    | Mkdir(p: Pid)
    | WritePid(p: Pid, written: bool)
    | ReadPid(p: Pid, readable: bool)
    | SleepAndCount(p: Pid)
    | Kill(p: Pid, listed: bool, launched: bool, fatal: bool)
    | Rmdir(p: Pid)
    | Empty(p: Pid, cleared: bool)
    | Leave(p: Pid)
    | Crash(p: Pid)

  const FRESH_PROCESS: Process := Process(Trying, FRESH)

  function Init(pids: set<Pid>): State {
    State(Absent, map p | p in pids :: FRESH_PROCESS, 0, 0)
  }

  function Move(s: State, p: Pid, place: Place): (t: State)
    requires p in s.procs
  {
    s.(procs := s.procs[p := s.procs[p].(place := place)])
  }

  /** Where `unlock` returns to: the kill branch starts a new epoch, the others go on. */
  function Unlocked(s: State, p: Pid, why: Reason): State
    requires p in s.procs
  {
    match why
    case Leaving => Move(s, p, Finished)
    case AfterKill => s.(procs := s.procs[p := FRESH_PROCESS])
    case LastChance => Move(s, p, Retrying)
  }

  /** A successful rmdir by `p`. */
  function Removed(s: State, p: Pid, why: Reason): State
    requires p in s.procs
  {
    Unlocked(s.(dir := Absent, steals := if why == Leaving then s.steals else s.steals + 1), p, why)
  }

  /** Whether `kill -9 current` hits another process of the system. */
  predicate Killable(s: State, p: Pid, current: int) {
    current >= 0 && current != p && current in s.procs && Alive(s.procs[current].place)
  }

  function Killed(s: State, q: Pid): State
    requires q in s.procs
  {
    Move(s, q, Dead).(killed := if Believes(s.procs[q].place) then s.killed + 1 else s.killed)
  }

  /** The state after a step, or `None` when the process is not at that point of the program. */
  function Next(s: State, a: Step): Option<State> {
    if a.p !in s.procs then None else
    var p, me := a.p, s.procs[a.p];
    match (a, me.place)
    case (Mkdir(_), Trying) =>
      if s.dir == Absent then Some(Move(s, p, Entering).(dir := Present(None)))
      else Some(Move(s, p, Reading))
    case (Mkdir(_), Retrying) =>
      if s.dir == Absent then Some(Move(s, p, EnteringLate).(dir := Present(None)))
      else Some(Move(s, p, Refused))
    case (WritePid(_, written), Entering) =>
      if written && s.dir.Present? then Some(Move(s, p, Critical).(dir := Present(Some(p))))
      else Some(Move(s, p, Refused))
    case (WritePid(_, written), EnteringLate) =>
      // The source does not test this file pointer: without a file the process dies.
      if written && s.dir.Present? then Some(Move(s, p, Critical).(dir := Present(Some(p))))
      else Some(Move(s, p, Dead))
    case (ReadPid(_, readable), Reading) =>
      var reading := if readable && s.dir.Present? then s.dir.pidFile else None;
      var current := if reading.Some? then reading.value else NO_PID;
      Some(s.(procs := s.procs[p := Process(Sleeping(current), Observe(me.counter, reading))]))
    case (SleepAndCount(_), Sleeping(current)) =>
      var c := Sleep(me.counter);
      Some(s.(procs := s.procs[p := Process(if c.i >= MAX_ITERATION then Killing(current) else Trying, c)]))
    case (Kill(_, listed, launched, fatal), Killing(current)) =>
      if !listed || !launched then Some(Move(s, p, Removing(LastChance)))
      else
        var t := Move(s, p, Removing(AfterKill));
        if fatal && Killable(s, p, current) then Some(Killed(t, current)) else Some(t)
    case (Rmdir(_), Removing(why)) =>
      (match s.dir
       case Absent => Some(Unlocked(s, p, why))
       case Present(None) => Some(Removed(s, p, why))
       case Present(Some(_)) => Some(Move(s, p, Emptying(why))))
    case (Empty(_, cleared), Emptying(why)) =>
      if s.dir == Absent || !cleared then Some(Unlocked(s, p, why))
      else Some(Move(s, p, RemovingAgain(why)).(dir := Present(None)))
    case (Rmdir(_), RemovingAgain(why)) =>
      if s.dir == Present(None) then Some(Removed(s, p, why)) else Some(Unlocked(s, p, why))
    case (Leave(_), Critical) =>
      Some(Move(s, p, Removing(Leaving)))
    case (Crash(_), place) =>
      if Alive(place) then Some(Move(s, p, Dead)) else None
    case _ => None
  }

  predicate Alive(place: Place) {
    !place.Finished? && !place.Refused? && !place.Dead?
  }

  /** The process acts as the holder: its mkdir succeeded and it has not called `unlock` since. */
  predicate Believes(place: Place) {
    place.Entering? || place.EnteringLate? || place.Critical?
  }

  /** The process is inside the `unlock` that ends its own critical section. */
  predicate Leaves(place: Place) {
    (place.Removing? || place.Emptying? || place.RemovingAgain?) && place.why == Leaving
  }

  /** The process has decided to take the lock from whoever has it. */
  predicate Steals(place: Place) {
    place.Killing? || ((place.Removing? || place.Emptying? || place.RemovingAgain?) && place.why != Leaving)
  }

  ghost function At(procs: map<Pid, Process>, places: Place -> bool): set<Pid> {
    set p | p in procs && places(procs[p].place)
  }

  /** The processes that act as the holder. */
  ghost function Holders(s: State): set<Pid> {
    At(s.procs, Believes)
  }

  /** The processes that are giving the lock up. */
  ghost function Leavers(s: State): set<Pid> {
    At(s.procs, Leaves)
  }

  /** The state after a run, or `None` when some step of it cannot be taken. */
  function Exec(s: State, run: seq<Step>): Option<State>
    decreases |run|
  {
    if run == [] then Some(s)
    else match Next(s, run[0]) case None => None case Some(t) => Exec(t, run[1..])
  }

  function Weight(place: Place): nat {
    (if Believes(place) then 1 else 0) + (if Leaves(place) then 1 else 0)
  }

  /** Holders and leavers are paid for by the directory, by steals and by kills of holders. */
  function Budget(s: State): int {
    (if s.dir == Absent then 0 else 1) + s.steals - s.killed
  }

  ghost predicate Accounted(s: State) {
    |Holders(s)| + |Leavers(s)| <= Budget(s)
  }

  lemma AtAfter(procs: map<Pid, Process>, p: Pid, me: Process, places: Place -> bool)
    requires p in procs
    ensures |At(procs[p := me], places)| + (if places(procs[p].place) then 1 else 0)
        == |At(procs, places)| + (if places(me.place) then 1 else 0)
  {
    var others := At(procs, places) - {p};
    assert At(procs, places) == if places(procs[p].place) then others + {p} else others;
    assert At(procs[p := me], places) == if places(me.place) then others + {p} else others;
  }

  lemma LoadAfter(s: State, t: State, p: Pid)
    requires p in s.procs && p in t.procs && t.procs == s.procs[p := t.procs[p]]
    ensures |Holders(t)| + |Leavers(t)| + Weight(s.procs[p].place)
        == |Holders(s)| + |Leavers(s)| + Weight(t.procs[p].place)
  {
    AtAfter(s.procs, p, t.procs[p], Believes);
    AtAfter(s.procs, p, t.procs[p], Leaves);
  }

  /** A step that kills nobody changes one process, and pays for what it adds. */
  lemma SoloStep(s: State, a: Step)
    requires Next(s, a).Some?
    requires !(a.Kill? && a.listed && a.launched && a.fatal && Killable(s, a.p, s.procs[a.p].place.current))
    ensures var t := Next(s, a).value;
            && a.p in s.procs && a.p in t.procs && t.procs == s.procs[a.p := t.procs[a.p]]
            && Weight(t.procs[a.p].place) + Budget(s) <= Weight(s.procs[a.p].place) + Budget(t)
  {
  }

  lemma StepIsAccounted(s: State, a: Step)
    requires Accounted(s) && Next(s, a).Some?
    ensures Accounted(Next(s, a).value)
  {
    var t := Next(s, a).value;
    var p := a.p;
    if a.Kill? && a.listed && a.launched && a.fatal && Killable(s, p, s.procs[p].place.current) {
      var q := s.procs[p].place.current;
      var mid := Move(s, p, Removing(AfterKill));
      LoadAfter(s, mid, p);
      LoadAfter(mid, t, q);
    } else {
      SoloStep(s, a);
      LoadAfter(s, t, p);
    }
  }

  /** The counter of a process says how long it has waited, according to where the process is. */
  ghost predicate Patient(me: Process) {
    && (me.place.Trying? || me.place.Reading? ==> Paced(me.counter))
    && (me.place.Sleeping? ==> exists c, r :: Paced(c) && Observe(c, r) == me.counter)
    && (Steals(me.place) ==> Spent(me.counter))
  }

  ghost predicate AllPatient(s: State) {
    forall p | p in s.procs :: Patient(s.procs[p])
  }

  lemma OthersStayOrDie(s: State, a: Step, q: Pid)
    requires Next(s, a).Some? && q in Next(s, a).value.procs && q != a.p
    ensures q in s.procs && (Next(s, a).value.procs[q] == s.procs[q] || Next(s, a).value.procs[q].place == Dead)
  {
  }

  lemma ActorIsPatient(s: State, a: Step)
    requires Next(s, a).Some? && Patient(s.procs[a.p])
    ensures a.p in Next(s, a).value.procs && Patient(Next(s, a).value.procs[a.p])
  {
    var me := s.procs[a.p];
    var you := Next(s, a).value.procs[a.p];
    match me.place
    case Sleeping(_) =>
      if a.SleepAndCount? {
        var c, r :| Paced(c) && Observe(c, r) == me.counter;
        RoundIsPaced(c, r);
      }
    case Reading =>
      if a.ReadPid? {
        var reading := if a.readable && s.dir.Present? then s.dir.pidFile else None;
        assert Observe(me.counter, reading) == you.counter;
      }
    case _ =>
  }

  lemma StepIsPatient(s: State, a: Step)
    requires AllPatient(s) && Next(s, a).Some?
    ensures AllPatient(Next(s, a).value)
  {
    var t := Next(s, a).value;
    forall q | q in t.procs
      ensures Patient(t.procs[q])
    {
      if q == a.p {
        ActorIsPatient(s, a);
      } else {
        OthersStayOrDie(s, a, q);
      }
    }
  }

  lemma {:induction false} RunKeepsInvariants(s: State, run: seq<Step>)
    requires Accounted(s) && AllPatient(s) && Exec(s, run).Some?
    ensures Accounted(Exec(s, run).value) && AllPatient(Exec(s, run).value)
    decreases |run|
  {
    if run != [] {
      StepIsAccounted(s, run[0]);
      StepIsPatient(s, run[0]);
      RunKeepsInvariants(Next(s, run[0]).value, run[1..]);
    }
  }

  lemma InitIsGood(pids: set<Pid>)
    ensures Accounted(Init(pids)) && AllPatient(Init(pids))
  {
    assert Holders(Init(pids)) == {} && Leavers(Init(pids)) == {};
  }

  /**
   Every interleaving: the processes acting as holder, plus those of them that were killed, are at
   most one more than the steals. So as long as each steal was preceded by the death of a holder
   (in particular, as long as there was no steal) two processes are never inside together.
   */
  lemma HoldersAreBounded(pids: set<Pid>, run: seq<Step>)
    requires Exec(Init(pids), run).Some?
    ensures var s := Exec(Init(pids), run).value;
            && |Holders(s)| + |Leavers(s)| + s.killed <= 1 + s.steals
            && (s.steals <= s.killed ==>
                  forall p, q | p in s.procs && q in s.procs && Believes(s.procs[p].place)
                      && Believes(s.procs[q].place) :: p == q)
  {
    InitIsGood(pids);
    RunKeepsInvariants(Init(pids), run);
    var s := Exec(Init(pids), run).value;
    if s.steals <= s.killed {
      forall p, q | p in s.procs && q in s.procs && Believes(s.procs[p].place) && Believes(s.procs[q].place)
        ensures p == q
      {
        assert p in Holders(s) && q in Holders(s);
        assert |Holders(s) - {p}| == 0;
      }
    }
  }

  /**
   Whoever removes the directory outside of the `unlock` that ends its own critical section has first waited
   a whole epoch since it last did so.
   */
  lemma StealsAreRare(pids: set<Pid>, run: seq<Step>, a: Step)
    requires Exec(Init(pids), run).Some? && Next(Exec(Init(pids), run).value, a).Some?
    requires Next(Exec(Init(pids), run).value, a).value.steals > Exec(Init(pids), run).value.steals
    ensures var s := Exec(Init(pids), run).value;
            a.p in s.procs && Spent(s.procs[a.p].counter) && !Leaves(s.procs[a.p].place)
  {
    InitIsGood(pids);
    RunKeepsInvariants(Init(pids), run);
    assert Patient(Exec(Init(pids), run).value.procs[a.p]);
  }

  // Over a whole run, each steal is paid for with rounds of waiting.

  /** The rounds a process has waited towards its next steal; 25 are enough, and the steal uses them up. */
  function Credit(me: Process): nat {
    if Steals(me.place) then 25
    else if me.place.Trying? || me.place.Reading? || me.place.Sleeping? then me.counter.rounds
    else 0
  }

  function CreditOf(s: State, p: Pid): nat {
    if p in s.procs then Credit(s.procs[p]) else 0
  }

  /** All processes below `n`. */
  function Credits(s: State, n: nat): nat {
    if n == 0 then 0 else Credits(s, n - 1) + CreditOf(s, n - 1)
  }

  function Sleeps(run: seq<Step>): nat {
    if run == [] then 0 else (if run[0].SleepAndCount? then 1 else 0) + Sleeps(run[1..])
  }

  /** A step pays for the steal it may be, and only a round of waiting earns something. */
  lemma StepIsPaid(s: State, a: Step)
    requires Next(s, a).Some? && Patient(s.procs[a.p])
    ensures var t := Next(s, a).value;
            && s.steals <= t.steals
            && CreditOf(t, a.p) + 25 * (t.steals - s.steals) <= CreditOf(s, a.p) + if a.SleepAndCount? then 1 else 0
  {
    ActorIsPatient(s, a);
    var me := s.procs[a.p];
    if me.place.Sleeping? && a.SleepAndCount? {
      var c, r :| Paced(c) && Observe(c, r) == me.counter;
      assert me.counter.rounds == c.rounds;
    }
  }

  lemma OthersEarnNothing(s: State, a: Step, q: Pid)
    requires Next(s, a).Some? && q != a.p
    ensures CreditOf(Next(s, a).value, q) <= CreditOf(s, q)
  {
    if q in Next(s, a).value.procs {
      OthersStayOrDie(s, a, q);
    }
  }

  lemma {:induction false} CreditsStep(s: State, a: Step, n: nat)
    requires Next(s, a).Some?
    ensures var t := Next(s, a).value;
            && (n <= a.p ==> Credits(t, n) <= Credits(s, n))
            && (n > a.p ==> Credits(t, n) + CreditOf(s, a.p) <= Credits(s, n) + CreditOf(t, a.p))
    decreases n
  {
    hide Next, CreditOf;
    if n > 0 {
      CreditsStep(s, a, n - 1);
      if n - 1 != a.p {
        OthersEarnNothing(s, a, n - 1);
      }
    }
  }

  lemma {:induction false} RunIsPaid(s: State, run: seq<Step>, n: nat)
    requires Accounted(s) && AllPatient(s) && Exec(s, run).Some? && forall p :: p in s.procs ==> p < n
    ensures 25 * Exec(s, run).value.steals + Credits(Exec(s, run).value, n)
        <= 25 * s.steals + Credits(s, n) + Sleeps(run)
    decreases |run|
  {
    hide Next, Credits, CreditOf, Patient, Accounted;
    if run != [] {
      var t := Next(s, run[0]).value;
      ActorExists(s, run[0]);
      StepIsPaid(s, run[0]);
      CreditsStep(s, run[0], n);
      StepIsAccounted(s, run[0]);
      StepIsPatient(s, run[0]);
      RunIsPaid(t, run[1..], n);
    }
  }

  lemma ActorExists(s: State, a: Step)
    requires Next(s, a).Some?
    ensures a.p in s.procs && forall q :: q in Next(s, a).value.procs ==> q in s.procs
  {
    forall q | q in Next(s, a).value.procs ensures q in s.procs {
      if q != a.p {
        OthersStayOrDie(s, a, q);
      }
    }
  }

  lemma {:induction false} NoCreditAtTheStart(pids: set<Pid>, n: nat)
    ensures Credits(Init(pids), n) == 0
    decreases n
  {
    if n > 0 {
      NoCreditAtTheStart(pids, n - 1);
    }
  }

  lemma {:induction false} PidsAreBounded(pids: set<Pid>) returns (n: nat)
    ensures forall p :: p in pids ==> p < n
    decreases |pids|
  {
    n := 0;
    if pids != {} {
      var q :| q in pids;
      var m := PidsAreBounded(pids - {q});
      n := if m <= q then q + 1 else m;
      forall p | p in pids ensures p < n {
        assert p == q || p in pids - {q};
      }
    }
  }

  /**
   Over every interleaving there are at least 25 rounds of waiting for each steal, hence for each process
   beyond the first that acts as holder.
   */
  lemma StealsAreWaitedFor(pids: set<Pid>, run: seq<Step>)
    requires Exec(Init(pids), run).Some?
    ensures var s := Exec(Init(pids), run).value;
            && 25 * s.steals <= Sleeps(run)
            && 25 * (|Holders(s)| + |Leavers(s)| + s.killed - 1) <= Sleeps(run)
  {
    InitIsGood(pids);
    var n := PidsAreBounded(pids);
    NoCreditAtTheStart(pids, n);
    RunIsPaid(Init(pids), run, n);
    HoldersAreBounded(pids, run);
  }

  // The bound is attained: with n steals, n + 1 processes can be inside at once.

  lemma {:induction false} ExecAppend(s: State, first: seq<Step>, second: seq<Step>)
    requires Exec(s, first).Some?
    ensures Exec(s, first + second) == Exec(Exec(s, first).value, second)
    decreases |first|
  {
    if first == [] {
      assert first + second == second;
    } else {
      assert (first + second)[1..] == first[1..] + second;
      ExecAppend(Next(s, first[0]).value, first[1..], second);
    }
  }

  lemma {:induction false} SleepsAppend(first: seq<Step>, second: seq<Step>)
    ensures Sleeps(first + second) == Sleeps(first) + Sleeps(second)
  {
    if first == [] {
      assert first + second == second;
    } else {
      assert (first + second)[1..] == first[1..] + second;
      SleepsAppend(first[1..], second);
    }
  }

  lemma SleepsOfRounds(p: Pid)
    ensures Sleeps([Mkdir(p), ReadPid(p, true), SleepAndCount(p)]) == 1 && Sleeps(RoundOf(p)) == 0
    ensures Sleeps([Mkdir(p), WritePid(p, true)]) == 0
  {
    var first, last := [Mkdir(p), ReadPid(p, true)], [SleepAndCount(p)];
    assert first + last == [Mkdir(p), ReadPid(p, true), SleepAndCount(p)] && last[1..] == [];
    assert Sleeps(last) == 1;
    SleepsAppend(first, last);
    NoSleeps(first);
    NoSleeps(RoundOf(p));
    NoSleeps([Mkdir(p), WritePid(p, true)]);
  }

  lemma {:induction false} NoSleeps(run: seq<Step>)
    requires forall k :: 0 <= k < |run| ==> !run[k].SleepAndCount?
    ensures Sleeps(run) == 0
  {
    if run != [] {
      NoSleeps(run[1..]);
    }
  }

  /** A process that always finds the same pid in the file reaches the kill branch. */
  lemma {:induction false} Waits(s: State, p: Pid) returns (run: seq<Step>)
    requires p in s.procs && s.procs[p].place == Trying
    requires s.dir.Present? && s.dir.pidFile.Some? && s.dir.pidFile.value >= 0
    requires s.procs[p].counter.savedPid in {NO_PID, s.dir.pidFile.value}
    requires s.procs[p].counter.i < MAX_ITERATION
    ensures Exec(s, run).Some?
    ensures var t := Exec(s, run).value;
            p in t.procs && t == s.(procs := s.procs[p := t.procs[p]])
                && t.procs[p].place == Killing(s.dir.pidFile.value)
    ensures Sleeps(run) == (MAX_ITERATION + 1 - s.procs[p].counter.i) / 2
    decreases MAX_ITERATION - s.procs[p].counter.i
  {
    var step1 := Next(s, Mkdir(p)).value;
    var step2 := Next(step1, ReadPid(p, true)).value;
    var t := Next(step2, SleepAndCount(p)).value;
    var round := [Mkdir(p), ReadPid(p, true), SleepAndCount(p)];
    assert t.procs == s.procs[p := t.procs[p]];
    assert Exec(s, round) == Exec(step1, round[1..]) == Exec(step2, round[2..]) == Some(t) by {
      assert round[1..][1..] == round[2..];
      assert round[2..][1..] == [];
    }
    SleepsOfRounds(p);
    if t.procs[p].counter.i >= MAX_ITERATION {
      run := round;
    } else {
      var rest := Waits(t, p);
      ExecAppend(s, round, rest);
      SleepsAppend(round, rest);
      run := round + rest;
    }
  }

  ghost function RoundOf(p: Pid): seq<Step> {
    [Kill(p, false, false, false), Rmdir(p), Empty(p, true), Rmdir(p), Mkdir(p), WritePid(p, true)]
  }

  lemma RoundTakesOver(s: State, p: Pid)
    requires p in s.procs && s.procs[p].place.Killing?
    requires s.dir.Present? && s.dir.pidFile.Some?
    ensures Exec(s, RoundOf(p)) == Some(Move(s, p, Critical).(dir := Present(Some(p)), steals := s.steals + 1))
  {
    var run := RoundOf(p);
    var s1 := Next(s, run[0]).value;
    var s2 := Next(s1, run[1]).value;
    var s3 := Next(s2, run[2]).value;
    var s4 := Next(s3, run[3]).value;
    var s5 := Next(s4, run[4]).value;
    var s6 := Next(s5, run[5]).value;
    assert s6.procs == Move(s, p, Critical).procs;
    assert Exec(s, run) == Exec(s1, run[1..]);
    assert run[1..][1..] == run[2..] && run[2..][1..] == run[3..] && run[3..][1..] == run[4..]
        && run[4..][1..] == run[5..];
    assert Exec(s1, run[1..]) == Exec(s2, run[2..]) == Exec(s3, run[3..]);
    assert Exec(s3, run[3..]) == Exec(s4, run[4..]) == Exec(s5, run[5..]);
    assert run[5..][1..] == [];
    assert Exec(s5, run[5..]) == Some(s6);
  }

  /** A process at the kill branch that does not find the holder in the process list becomes one more holder. */
  lemma TakesOver(s: State, p: Pid)
    requires p in s.procs && s.procs[p].place.Killing?
    requires s.dir.Present? && s.dir.pidFile.Some?
    ensures Exec(s, RoundOf(p)) == Some(Move(s, p, Critical).(dir := Present(Some(p)), steals := s.steals + 1))
    ensures p !in Holders(s) && Holders(Exec(s, RoundOf(p)).value) == Holders(s) + {p}
  {
    hide Exec, RoundOf;
    RoundTakesOver(s, p);
  }

  /** A run after which processes `0` to `n` are all critical and `n` steals have happened. */
  lemma {:induction false} PileUp(pids: set<Pid>, n: nat) returns (run: seq<Step>)
    requires forall p: nat | p <= n :: p in pids
    ensures Exec(Init(pids), run).Some? && Sleeps(run) == 25 * n
    ensures var s := Exec(Init(pids), run).value;
            && s.dir == Present(Some(n)) && s.steals == n && s.killed == 0 && s.procs.Keys == pids
            && (forall p: nat | p in pids :: s.procs[p].place == if p <= n then Critical else Trying)
            && (forall p: nat | p in pids && p > n :: s.procs[p] == FRESH_PROCESS)
    decreases n
  {
    hide Sleeps;
    if n == 0 {
      run := [Mkdir(0), WritePid(0, true)];
      SleepsOfRounds(0);
      var s1 := Next(Init(pids), run[0]).value;
      assert Exec(Init(pids), run) == Exec(s1, run[1..]);
      assert run[1..][1..] == [];
    } else {
      var first := PileUp(pids, n - 1);
      var s := Exec(Init(pids), first).value;
      var wait := Waits(s, n);
      var t := Exec(s, wait).value;
      TakesOver(t, n);
      ExecAppend(s, wait, RoundOf(n));
      ExecAppend(Init(pids), first, wait + RoundOf(n));
      run := first + (wait + RoundOf(n));
      SleepsOfRounds(n);
      SleepsAppend(wait, RoundOf(n));
      SleepsAppend(first, wait + RoundOf(n));
    }
  }

  ghost function UpTo(n: nat): (pids: set<Pid>)
    ensures |pids| == n + 1 && forall p: Pid :: p in pids <==> p <= n
  {
    if n == 0 then {0} else UpTo(n - 1) + {n}
  }

  lemma BoundIsAttained(n: nat)
    ensures exists pids, run :: Exec(Init(pids), run).Some? && Sleeps(run) == 25 * n &&
              var s := Exec(Init(pids), run).value;
              s.steals == n && s.killed == 0 && |Holders(s)| == n + 1
  {
    var run := PileUp(UpTo(n), n);
    assert Holders(Exec(Init(UpTo(n)), run).value) == UpTo(n);
  }

  // What the steps do.

  /** The directory changes as the system calls say, wherever in its program the caller is. */
  lemma DirectoryObeysSystemCalls(s: State, a: Step)
    requires Next(s, a).Some?
    ensures Next(s, a).value.dir ==
      match a
      case Mkdir(_) => if s.dir == Absent then Present(None) else s.dir
      case WritePid(p, written) => if written && s.dir != Absent then Present(Some(p)) else s.dir
      case Rmdir(_) => if s.dir == Present(None) then Absent else s.dir
      case Empty(_, cleared) => if cleared && s.dir != Absent then Present(None) else s.dir
      case _ => s.dir
  {
  }

  /** Only the caller moves on, unless a kill hits: then its victim, a live process other than the caller, is dead. */
  lemma OthersOnlyDie(s: State, a: Step, q: Pid)
    requires Next(s, a).Some? && q in s.procs && q != a.p
    ensures var t := Next(s, a).value;
            && q in t.procs
            && t.procs[q] ==
               if a.Kill? && a.listed && a.launched && a.fatal && s.procs[a.p].place == Killing(q)
                  && s.procs[q].place !in {Finished, Refused, Dead}
               then s.procs[q].(place := Dead) else s.procs[q]
  {
  }

  /** What a process remembers of the pid file. */
  lemma ReadsThePidFile(s: State, p: Pid, readable: bool)
    requires p in s.procs && s.procs[p].place == Reading
    ensures var t := Next(s, ReadPid(p, readable));
            && t.Some? && p in t.value.procs
            && t.value.procs[p].place ==
               Sleeping(if readable && s.dir.Present? && s.dir.pidFile.Some? then s.dir.pidFile.value else -1)
  {
  }

  /** A holder only gets out of its critical section through `unlock`, or by dying. */
  lemma NobodyLeavesWithoutUnlock(s: State, a: Step, p: Pid)
    requires Next(s, a).Some? && p in s.procs && s.procs[p].place == Critical
    ensures var t := Next(s, a).value;
            && p in t.procs
            && t.procs[p].place in {Critical, Removing(Leaving), Dead}
            && (t.procs[p].place == Removing(Leaving) ==> a == Leave(p))
            && (t.procs[p].place == Dead ==> a == Crash(p) || (a.Kill? && a.p != p && a.fatal))
  {
  }

  lemma ExecOfOne(s: State, a: Step)
    ensures Exec(s, [a]) == Next(s, a)
  {
    hide Next;
    assert [a][1..] == [];
  }

  lemma ExecOfFour(s: State, a: Step, b: Step, c: Step, d: Step)
    requires Next(s, a).Some? && Next(Next(s, a).value, b).Some?
    ensures Exec(s, [a, b]) == Next(Next(s, a).value, b)
    ensures var t := Next(Next(s, a).value, b).value;
            Next(t, c).Some? ==> Exec(s, [a, b, c, d]) == Next(Next(t, c).value, d)
  {
    hide Next;
    var t := Next(Next(s, a).value, b).value;
    assert [a, b][1..] == [b] && [b][1..] == [];
    assert [a, b, c, d][1..] == [b, c, d] && [b, c, d][1..] == [c, d] && [c, d][1..] == [d] && [d][1..] == [];
    assert Exec(s, [a, b]) == Exec(Next(s, a).value, [b]) == Exec(t, []);
    assert Exec(s, [a, b, c, d]) == Exec(Next(s, a).value, [b, c, d]) == Exec(t, [c, d]);
    if Next(t, c).Some? {
      assert Exec(t, [c, d]) == Exec(Next(t, c).value, [d]);
      ExecOfOne(Next(t, c).value, d);
    }
  }

  /** Leaving the critical section undisturbed: one `rmdir` if there is no pid file, else all of `unlock`. */
  ghost function Release(s: State, p: Pid): seq<Step> {
    if s.dir.Present? && s.dir.pidFile.Some? then [Leave(p), Rmdir(p), Empty(p, true), Rmdir(p)]
    else [Leave(p), Rmdir(p)]
  }

  /** `unlock` frees the lock, takes nothing from anybody, and ends the process. */
  lemma UnlockFreesTheLock(s: State, p: Pid)
    requires p in s.procs && s.procs[p].place == Critical
    ensures Exec(s, Release(s, p)) == Some(Move(s, p, Finished).(dir := Absent))
  {
    hide Exec;
    var t := Next(Next(s, Leave(p)).value, Rmdir(p)).value;
    ExecOfFour(s, Leave(p), Rmdir(p), Empty(p, true), Rmdir(p));
    assert t.procs == s.procs[p := t.procs[p]];
    assert Move(s, p, Finished).procs == s.procs[p := s.procs[p].(place := Finished)];
    if s.dir.Present? && s.dir.pidFile.Some? {
      var u := Next(t, Empty(p, true)).value;
      var v := Next(u, Rmdir(p)).value;
      assert v.procs == s.procs[p := s.procs[p].(place := Finished)];
    }
  }

  /** An `unlock` that cannot remove the directory leaves it, and its caller goes on as if it had. */
  lemma FailedUnlockGoesOn(s: State, p: Pid, a: Step, why: Reason)
    requires p in s.procs && s.dir.Present?
    requires (s.procs[p].place == Emptying(why) && a == Empty(p, false))
          || (s.procs[p].place == RemovingAgain(why) && a == Rmdir(p) && s.dir.pidFile.Some?)
    ensures Next(s, a) == Some(s.(procs := s.procs[p :=
              match why
              case Leaving => s.procs[p].(place := Finished)
              case AfterKill => Process(Trying, Counter(0, -1, 0, 0))
              case LastChance => s.procs[p].(place := Retrying)]))
  {
  }

  /** A free lock is taken by the first process that tries, and by no other. */
  lemma FreeLockIsTaken(s: State, p: Pid, q: Pid)
    requires p in s.procs && q in s.procs && p != q && s.procs[p].place == Trying && s.procs[q].place == Trying
    requires s.dir == Absent
    ensures Exec(s, [Mkdir(p), WritePid(p, true)]) == Some(Move(s, p, Critical).(dir := Present(Some(p))))
    ensures Exec(s, [Mkdir(p), Mkdir(q)]) == Some(Move(Move(s, p, Entering), q, Reading).(dir := Present(None)))
  {
    hide Exec;
    var t := Next(s, Mkdir(p)).value;
    ExecOfFour(s, Mkdir(p), WritePid(p, true), Crash(p), Crash(p));
    ExecOfFour(s, Mkdir(p), Mkdir(q), Crash(p), Crash(p));
    assert Next(t, WritePid(p, true)).value.procs == Move(s, p, Critical).procs;
    assert Next(t, Mkdir(q)).value.procs == Move(Move(s, p, Entering), q, Reading).procs;
  }

  /** If the pid file cannot be written, `lock` fails and leaves the directory behind, with nobody in it. */
  lemma FailedWriteLeavesTheDirectory(s: State, p: Pid)
    requires p in s.procs && s.procs[p].place == Trying && s.dir == Absent
    ensures Exec(s, [Mkdir(p), WritePid(p, false)]) == Some(Move(s, p, Refused).(dir := Present(None)))
  {
    hide Exec;
    ExecOfFour(s, Mkdir(p), WritePid(p, false), Crash(p), Crash(p));
    assert Next(Next(s, Mkdir(p)).value, WritePid(p, false)).value.procs == Move(s, p, Refused).procs;
  }

  ghost function KillingRound(p: Pid): seq<Step> {
    [Kill(p, true, true, true), Rmdir(p), Empty(p, true), Rmdir(p)]
  }

  lemma KillHits(s: State, p: Pid, q: Pid)
    requires p in s.procs && q in s.procs && p != q && s.procs[p].place == Killing(q) && s.procs[q].place == Critical
    ensures Next(s, Kill(p, true, true, true)) ==
            Some(State(s.dir, s.procs[p := s.procs[p].(place := Removing(AfterKill))][q := s.procs[q].(place := Dead)],
                       s.steals, s.killed + 1))
  {
  }

  lemma StolenAfterKill(s: State, p: Pid)
    requires p in s.procs && s.procs[p].place == Removing(AfterKill) && s.dir.Present? && s.dir.pidFile.Some?
    ensures var t := Next(s, Rmdir(p));
            && t.Some? && Next(t.value, Empty(p, true)).Some?
            && var u := Next(t.value, Empty(p, true)).value;
               Next(u, Rmdir(p)) == Some(State(Absent, s.procs[p := FRESH_PROCESS], s.steals + 1, s.killed))
  {
    var u := Next(Next(s, Rmdir(p)).value, Empty(p, true)).value;
    assert Next(u, Rmdir(p)).value.procs == s.procs[p := FRESH_PROCESS];
  }

  /** The holder that is found is killed, its directory goes, and the killer starts over with a fresh counter. */
  lemma HolderIsKilled(s: State, p: Pid, q: Pid)
    requires p in s.procs && q in s.procs && p != q && s.procs[p].place == Killing(q) && s.procs[q].place == Critical
    requires s.dir == Present(Some(q))
    ensures Exec(s, KillingRound(p)) ==
            Some(State(Absent, s.procs[p := FRESH_PROCESS][q := s.procs[q].(place := Dead)],
                       s.steals + 1, s.killed + 1))
  {
    hide Exec, Next;
    KillHits(s, p, q);
    var t := Next(s, Kill(p, true, true, true)).value;
    StolenAfterKill(t, p);
    ExecOfFour(s, Kill(p, true, true, true), Rmdir(p), Empty(p, true), Rmdir(p));
    assert t.procs[p := FRESH_PROCESS] == s.procs[p := FRESH_PROCESS][q := s.procs[q].(place := Dead)];
  }

  /** After it has removed the directory, a process that comes too late with its last `mkdir` gives up. */
  lemma LateMkdirGivesUp(s: State, p: Pid)
    requires p in s.procs && s.procs[p].place == Retrying && s.dir.Present?
    ensures Next(s, Mkdir(p)) == Some(Move(s, p, Refused))
  {
  }

  /** Then, without a pid file to write to, it dies on the unchecked file pointer and leaves the directory behind. */
  lemma LateWriteDies(s: State, p: Pid)
    requires p in s.procs && s.procs[p].place == EnteringLate
    ensures Next(s, WritePid(p, false)) == Some(s.(procs := s.procs[p := s.procs[p].(place := Dead)]))
  {
  }

  /** A process that has not ended can die between any two calls, changing nothing else; one that has does nothing. */
  lemma CrashAtAnyPoint(s: State, p: Pid, a: Step)
    requires p in s.procs
    ensures s.procs[p].place !in {Finished, Refused, Dead} ==>
              Next(s, Crash(p)) == Some(s.(procs := s.procs[p := s.procs[p].(place := Dead)]))
    ensures s.procs[p].place in {Finished, Refused, Dead} && a.p == p ==> Next(s, a) == None
  {
  }
}
