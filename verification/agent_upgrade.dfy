/**
 Upgrading agents: which of the requested agents are refused and why, the tasks created for the others in
 chunks that shrink when the task manager cannot be reached, and the wait for every upgrade to end.
 Agents are numbers here; 0 is the manager.
 */
module AgentUpgrade {
  import opened Options
  import opened Sequences
  import Strings

  datatype Row = Row(agent: int, active: bool)

  datatype Answer = Answer(agent: int, error: int)

  datatype Failure = Failure(agent: int, code: int)

  /** The error of the upgrade module when it cannot talk to the task manager. */
  const UNREACHABLE := 4

  ghost function Who(answers: seq<Answer>): (agents: seq<int>)
    ensures |agents| == |answers|
  {
    seq(|answers|, i requires 0 <= i < |answers| => answers[i].agent)
  }

  lemma WhoAppend(first: seq<Answer>, second: seq<Answer>)
    ensures Who(first + second) == Who(first) + Who(second)
  {
  }

  /** The n-th request is answered once for every agent in it. */
  ghost predicate AnswersAll(server: (nat, seq<int>) -> seq<Answer>) {
    forall n: nat, chunk: seq<int> :: multiset(Who(server(n, chunk))) == multiset(chunk)
  }

  lemma Answered(server: (nat, seq<int>) -> seq<Answer>, n: nat, chunk: seq<int>)
    requires AnswersAll(server)
    ensures multiset(Who(server(n, chunk))) == multiset(chunk) && |server(n, chunk)| == |chunk|
  {
    assert |multiset(Who(server(n, chunk)))| == |multiset(chunk)|;
  }

  predicate Unreachable(answers: seq<Answer>) {
    exists a :: a in answers && a.error == UNREACHABLE
  }

  /** What the server answers to chunks sent one after another, the first of them as call number `first`. */
  function Replies(server: (nat, seq<int>) -> seq<Answer>, first: nat,
      chunks: seq<seq<int>>): (replies: seq<seq<Answer>>)
    ensures |replies| == |chunks|
    decreases |chunks|
  {
    if chunks == [] then [] else [server(first, chunks[0])] + Replies(server, first + 1, chunks[1..])
  }

  /** How many of these chunks are answered before one finds the task manager unreachable. */
  function Reached(server: (nat, seq<int>) -> seq<Answer>, first: nat, chunks: seq<seq<int>>): (n: nat)
    ensures n <= |chunks|
    decreases |chunks|
  {
    if chunks == [] || Unreachable(server(first, chunks[0])) then 0 else 1 + Reached(server, first + 1, chunks[1..])
  }

  /** Reply by reply. */
  lemma {:induction false} ReplyAt(server: (nat, seq<int>) -> seq<Answer>, first: nat, chunks: seq<seq<int>>, k: nat)
    requires k < |chunks|
    ensures Replies(server, first, chunks)[k] == server(first + k, chunks[k])
    ensures k < Reached(server, first, chunks) ==> !Unreachable(server(first + k, chunks[k]))
    ensures k == Reached(server, first, chunks) ==> Unreachable(server(first + k, chunks[k]))
    decreases |chunks|
  {
    if k > 0 {
      ReplyAt(server, first + 1, chunks[1..], k - 1);
    } else if |chunks| > 1 {
      ReplyAt(server, first + 1, chunks[1..], 0);
    }
  }

  /** The attempt whose answers are kept: the number of its first call, and the size of its chunks. */
  function Kept(server: (nat, seq<int>) -> seq<Answer>, eligible: seq<int>, size: nat,
      calls: nat): (attempt: (nat, nat))
    requires size > 0
    ensures calls <= attempt.0 && 1 <= attempt.1 <= size
    decreases size
  {
    var chunks := Chunks(eligible, size);
    var n := Reached(server, calls, chunks);
    if size == 1 || n == |chunks| then (calls, size) else Kept(server, eligible, size / 2, calls + n + 1)
  }

  function Created(server: (nat, seq<int>) -> seq<Answer>, eligible: seq<int>, size: nat, calls: nat): seq<seq<Answer>>
    requires size > 0
  {
    var (first, last) := Kept(server, eligible, size, calls);
    Replies(server, first, Chunks(eligible, last))
  }

  /** One pass over the chunks of one size, given up at the first unreachable task manager. */
  method Attempt(eligible: seq<int>, size: nat, server: (nat, seq<int>) -> seq<Answer>, calls: nat)
    returns (responses: seq<seq<Answer>>, done: bool, made: nat)
    requires size > 0
    ensures done <==> size == 1 || Reached(server, calls, Chunks(eligible, size)) == |Chunks(eligible, size)|
    ensures done ==> responses == Replies(server, calls, Chunks(eligible, size))
    ensures !done ==> made == calls + Reached(server, calls, Chunks(eligible, size)) + 1
  {
    hide Chunks;
    responses, done, made := [], false, calls;
    var rest := Chunks(eligible, size);
    while rest != []
      invariant Replies(server, calls, Chunks(eligible, size)) == responses + Replies(server, made, rest)
      invariant made == calls + |responses|
      invariant size != 1 ==>
                  Reached(server, calls, Chunks(eligible, size)) == |responses| + Reached(server, made, rest)
      decreases |rest|
    {
      var response := server(made, rest[0]);
      made := made + 1;
      if Unreachable(response) && size != 1 {
        return;
      }
      responses := responses + [response];
      rest := rest[1..];
    }
    done := true;
  }

  /** `create_upgrade_tasks` */
  method CreateUpgradeTasks(eligible: seq<int>, size: nat, server: (nat, seq<int>) -> seq<Answer>, calls: nat)
    returns (responses: seq<seq<Answer>>)
    requires size > 0
    ensures responses == Created(server, eligible, size, calls)
    decreases size
  {
    var done, made;
    responses, done, made := Attempt(eligible, size, server, calls);
    if !done {
      responses := CreateUpgradeTasks(eligible, size / 2, server, made);
    }
  }

  lemma NothingFlat()
    ensures Who(Flat([])) == [] && Flat<Answer>([]) == []
  {
  }

  lemma {:induction false} RepliesAnswerAll(server: (nat, seq<int>) -> seq<Answer>, first: nat, chunks: seq<seq<int>>)
    requires AnswersAll(server)
    ensures multiset(Who(Flat(Replies(server, first, chunks)))) == multiset(Flat(chunks))
    decreases |chunks|
  {
    hide Who, AnswersAll;
    if chunks == [] {
      NothingFlat();
    } else {
      RepliesAnswerAll(server, first + 1, chunks[1..]);
      Answered(server, first, chunks[0]);
      WhoAppend(server(first, chunks[0]), Flat(Replies(server, first + 1, chunks[1..])));
    }
  }

  /** Every eligible agent is answered once in what is returned. */
  lemma CreatedAnswersAll(server: (nat, seq<int>) -> seq<Answer>, eligible: seq<int>, size: nat, calls: nat)
    requires size > 0 && AnswersAll(server)
    ensures multiset(Who(Flat(Created(server, eligible, size, calls)))) == multiset(eligible)
  {
    var (first, last) := Kept(server, eligible, size, calls);
    RepliesAnswerAll(server, first, Chunks(eligible, last));
    ChunksAreTheList(eligible, last);
  }

  /** An unreachable task manager is only reported after chunks of one agent. */
  lemma {:induction false} KeptIsReachable(server: (nat, seq<int>) -> seq<Answer>, eligible: seq<int>, size: nat,
      calls: nat)
    requires size > 0
    ensures var (first, last) := Kept(server, eligible, size, calls);
            last > 1 ==> Reached(server, first, Chunks(eligible, last)) == |Chunks(eligible, last)|
    ensures Kept(server, eligible, size, calls).1 > 1 ==>
              forall a :: a in Flat(Created(server, eligible, size, calls)) ==> a.error != 4
    decreases size
  {
    hide Chunks, Reached;
    var n := Reached(server, calls, Chunks(eligible, size));
    if size > 1 && n < |Chunks(eligible, size)| {
      KeptIsReachable(server, eligible, size / 2, calls + n + 1);
    } else if size > 1 {
      ReachedHaveNoFour(server, calls, Chunks(eligible, size));
    }
  }

  lemma {:induction false} ReachedHaveNoFour(server: (nat, seq<int>) -> seq<Answer>, first: nat,
      chunks: seq<seq<int>>)
    requires Reached(server, first, chunks) == |chunks|
    ensures forall a :: a in Flat(Replies(server, first, chunks)) ==> a.error != 4
    decreases |chunks|
  {
    if chunks != [] {
      ReachedHaveNoFour(server, first + 1, chunks[1..]);
    }
  }

  ghost predicate FoundUnreachable(server: (nat, seq<int>) -> seq<Answer>, eligible: seq<int>, call: int, size: nat,
      k: nat)
  {
    call >= 0 && size > 0 && k < |Chunks(eligible, size)|
    && exists a :: a in server(call, Chunks(eligible, size)[k]) && a.error == 4
  }

  /** The call sent a chunk about twice as large as `last` and found the task manager unreachable. */
  ghost predicate GivenUp(server: (nat, seq<int>) -> seq<Answer>, eligible: seq<int>, call: int, last: nat) {
    exists size: nat, k: nat :: (size == 2 * last || size == 2 * last + 1)
        && FoundUnreachable(server, eligible, call, size, k)
  }

  /** A smaller size is only tried after a call with a larger chunk found the task manager unreachable. */
  lemma {:induction false} SmallerOnlyWhenUnreachable(server: (nat, seq<int>) -> seq<Answer>, eligible: seq<int>,
      size: nat, calls: nat)
    requires size > 0
    ensures var (first, last) := Kept(server, eligible, size, calls);
            last < size ==> GivenUp(server, eligible, first - 1, last)
    decreases size
  {
    hide Chunks, Reached;
    var chunks := Chunks(eligible, size);
    var n := Reached(server, calls, chunks);
    if size > 1 && n < |chunks| {
      SmallerOnlyWhenUnreachable(server, eligible, size / 2, calls + n + 1);
      ReplyAt(server, calls, chunks, n);
      KeptFirst(server, eligible, size / 2, calls + n + 1);
      assert FoundUnreachable(server, eligible, calls + n, size, n);
    }
  }

  lemma KeptFirst(server: (nat, seq<int>) -> seq<Answer>, eligible: seq<int>, size: nat, calls: nat)
    requires size > 0
    ensures Kept(server, eligible, size, calls).1 == size ==> Kept(server, eligible, size, calls).0 == calls
  {
  }

  /** All requests in order, the abandoned ones included. */
  function Requests(server: (nat, seq<int>) -> seq<Answer>, eligible: seq<int>, size: nat, calls: nat): seq<seq<int>>
    requires size > 0
    decreases size
  {
    var chunks := Chunks(eligible, size);
    var n := Reached(server, calls, chunks);
    if size == 1 || n == |chunks| then chunks else chunks[..n + 1] + Requests(server, eligible, size / 2, calls + n + 1)
  }

  /** The kept answers are those to the last requests. */
  lemma {:induction false} LastRequestsAreKept(server: (nat, seq<int>) -> seq<Answer>, eligible: seq<int>, size: nat,
      calls: nat)
    requires size > 0
    ensures var (first, last) := Kept(server, eligible, size, calls);
            var all := Requests(server, eligible, size, calls);
            first - calls <= |all| && all[first - calls..] == Chunks(eligible, last)
    decreases size
  {
    hide Chunks, Reached;
    var chunks := Chunks(eligible, size);
    var n := Reached(server, calls, chunks);
    if size > 1 && n < |chunks| {
      LastRequestsAreKept(server, eligible, size / 2, calls + n + 1);
      var (first, last) := Kept(server, eligible, size, calls);
      var later := Requests(server, eligible, size / 2, calls + n + 1);
      DropBoth(chunks[..n + 1], later, first - calls);
    }
  }

  lemma DropBoth<T>(first: seq<T>, second: seq<T>, k: nat)
    requires |first| <= k <= |first| + |second|
    ensures (first + second)[k..] == second[k - |first|..]
  {
  }

  function TimesAsked(requests: seq<seq<int>>, agent: int): nat {
    if requests == [] then 0 else (if agent in requests[0] then 1 else 0) + TimesAsked(requests[1..], agent)
  }

  lemma {:induction false} TimesAskedAppend(first: seq<seq<int>>, second: seq<seq<int>>, agent: int)
    ensures TimesAsked(first + second, agent) == TimesAsked(first, agent) + TimesAsked(second, agent)
  {
    if first == [] {
      assert first + second == second;
    } else {
      assert (first + second)[1..] == first[1..] + second;
      TimesAskedAppend(first[1..], second, agent);
    }
  }

  lemma {:induction false} AskedAsListed(requests: seq<seq<int>>, agent: int)
    ensures TimesAsked(requests, agent) <= multiset(Flat(requests))[agent]
  {
    if requests != [] {
      AskedAsListed(requests[1..], agent);
      assert agent in requests[0] <==> multiset(requests[0])[agent] > 0;
      assert multiset(Flat(requests)) == multiset(requests[0]) + multiset(Flat(requests[1..]));
    }
  }

  function Log2(n: nat): nat {
    if n <= 1 then 0 else 1 + Log2(n / 2)
  }

  /** An agent is part of at most one request for each size: 9 for chunks of 500, 7 for chunks of 97. */
  lemma {:induction false} RequestsAreFew(server: (nat, seq<int>) -> seq<Answer>, eligible: seq<int>, size: nat,
      calls: nat, agent: int)
    requires size > 0 && multiset(eligible)[agent] <= 1
    ensures TimesAsked(Requests(server, eligible, size, calls), agent) <= Log2(size) + 1
    decreases size
  {
    hide Chunks, Flat, Reached, TimesAsked;
    var chunks := Chunks(eligible, size);
    var n := Reached(server, calls, chunks);
    ChunksAreTheList(eligible, size);
    AskedAsListed(chunks, agent);
    if size > 1 && n < |chunks| {
      RequestsAreFew(server, eligible, size / 2, calls + n + 1, agent);
      assert chunks == chunks[..n + 1] + chunks[n + 1..];
      TimesAskedAppend(chunks[..n + 1], chunks[n + 1..], agent);
      TimesAskedAppend(chunks[..n + 1], Requests(server, eligible, size / 2, calls + n + 1), agent);
    }
  }

  ghost function Refused(failed: seq<Failure>): seq<int> {
    seq(|failed|, i requires 0 <= i < |failed| => failed[i].agent)
  }

  lemma RefusedAppend(first: seq<Failure>, second: seq<Failure>)
    ensures Refused(first + second) == Refused(first) + Refused(second)
  {
  }

  lemma SomeMember(agents: set<int>)
    ensures agents == {} || exists agent :: agent in agents
  {
    if !exists agent :: agent in agents {
      assert agents == {};
    }
  }

  method AddFailedItems(failed: seq<Failure>, agents: set<int>, code: int) returns (more: seq<Failure>)
    ensures multiset(Refused(more)) == multiset(Refused(failed)) + multiset(agents)
    ensures forall f :: f in more ==> f in failed || (f.agent in agents && f.code == code)
  {
    hide Refused;
    more := failed;
    var rest := agents;
    while rest != {}
      invariant rest <= agents
      invariant multiset(Refused(more)) == multiset(Refused(failed)) + multiset(agents - rest)
      invariant forall f :: f in more ==> f in failed || (f.agent in agents && f.code == code)
    {
      SomeMember(rest);
      var agent :| agent in rest;
      RefusedAppend(more, [Failure(agent, code)]);
      OneRefused(Failure(agent, code));
      assert agents - (rest - {agent}) == (agents - rest) + {agent};
      more := more + [Failure(agent, code)];
      rest := rest - {agent};
    }
    assert agents - rest == agents;
  }

  lemma OneRefused(f: Failure)
    ensures Refused([f]) == [f.agent] && Refused([]) == []
  {
  }

  method Listed(agents: set<int>) returns (list: seq<int>)
    ensures multiset(list) == multiset(agents)
  {
    list := [];
    var rest := agents;
    while rest != {}
      invariant rest <= agents
      invariant multiset(list) == multiset(agents - rest)
    {
      SomeMember(rest);
      var agent :| agent in rest;
      assert agents - (rest - {agent}) == (agents - rest) + {agent};
      list := list + [agent];
      rest := rest - {agent};
    }
    assert agents - rest == agents;
  }

  /** What the query over the agents returns: rows of requested agents that exist, and the manager is active. */
  ghost predicate QueryAnswer(items: seq<Row>, requested: set<int>, system: set<int>) {
    && (forall k :: 0 <= k < |items| ==> items[k].agent in requested && items[k].agent in system)
    && (forall j, k :: 0 <= j < k < |items| ==> items[j].agent != items[k].agent)
    && (forall k :: 0 <= k < |items| && items[k].agent == 0 ==> items[k].active)
  }

  ghost predicate Shown(items: seq<Row>, agent: int) {
    exists k :: 0 <= k < |items| && items[k].agent == agent
  }

  ghost predicate Active(items: seq<Row>, agent: int) {
    exists k :: 0 <= k < |items| && items[k] == Row(agent, true)
  }

  /** Why an agent is refused, if it is. */
  ghost function Refusal(agent: int, system: set<int>, items: seq<Row>): Option<int> {
    if agent == 0 then Some(1703)
    else if agent !in system then Some(1701)
    else if !Shown(items, agent) then Some(1731)
    else if !Active(items, agent) then Some(1707)
    else None
  }

  ghost function RefusedWith(code: int, requested: set<int>, system: set<int>, items: seq<Row>): set<int> {
    set a | a in requested && Refusal(a, system, items) == Some(code)
  }

  ghost function Eligible(requested: set<int>, system: set<int>, items: seq<Row>): set<int> {
    set a | a in requested && Refusal(a, system, items) == None
  }

  /** The set expressions of the source are the five answers of `Refusal`. */
  lemma Fates(requested: set<int>, system: set<int>, items: seq<Row>, agents: set<int>, filtered: set<int>,
      nonActive: set<int>)
    requires QueryAnswer(items, requested, system) && agents == requested - {0}
    requires filtered == set k | 0 <= k < |items| :: items[k].agent
    requires nonActive == set k | 0 <= k < |items| && !items[k].active :: items[k].agent
    ensures RefusedWith(1703, requested, system, items) == requested * {0}
    ensures RefusedWith(1701, requested, system, items) == agents - system
    ensures RefusedWith(1707, requested, system, items) == nonActive
    ensures RefusedWith(1731, requested, system, items) == agents - (agents - system) - nonActive - filtered
    ensures Eligible(requested, system, items) ==
            agents - (agents - system) - nonActive - RefusedWith(1731, requested, system, items)
  {
    forall a ensures a in filtered <==> Shown(items, a) {
    }
    forall a ensures a in nonActive <==> Shown(items, a) && !Active(items, a) {
    }
    assert forall a :: Shown(items, a) ==> a in requested && a in system;
  }

  lemma FatesAddUp(requested: set<int>, system: set<int>, items: seq<Row>)
    ensures multiset(requested) ==
            multiset(RefusedWith(1703, requested, system, items))
            + multiset(RefusedWith(1701, requested, system, items))
            + multiset(RefusedWith(1707, requested, system, items))
            + multiset(RefusedWith(1731, requested, system, items))
            + multiset(Eligible(requested, system, items))
  {
  }

  /** Every requested agent is refused once, for the right reason, or eligible. */
  method Partition(requested: set<int>, system: set<int>, items: seq<Row>, hasFilters: bool)
    returns (failed: seq<Failure>, eligible: set<int>, formatted: bool)
    requires QueryAnswer(items, requested, system)
    ensures !formatted <==> !hasFilters && RefusedWith(1731, requested, system, items) != {}
    ensures formatted ==> multiset(Refused(failed)) + multiset(eligible) == multiset(requested)
    ensures forall f :: f in failed ==> f.agent in RefusedWith(f.code, requested, system, items)
    ensures formatted ==> eligible == Eligible(requested, system, items)
  {
    hide Refused, QueryAnswer, Refusal, RefusedWith, Eligible;
    var filtered := set k | 0 <= k < |items| :: items[k].agent;
    var agents := requested;
    OneRefused(Failure(0, 1703));
    failed := [];
    if 0 in agents {
      agents := agents - {0};
      failed := [Failure(0, 1703)];
    }
    var notFound := agents - system;
    failed := AddFailedItems(failed, notFound, 1701);
    var nonActive := set k | 0 <= k < |items| && !items[k].active :: items[k].agent;
    failed := AddFailedItems(failed, nonActive, 1707);
    var nonEligible := agents - notFound - nonActive - filtered;
    Fates(requested, system, items, agents, filtered, nonActive);
    FatesAddUp(requested, system, items);
    if nonEligible != {} && !hasFilters {
      return failed, {}, false;
    }
    failed := AddFailedItems(failed, nonEligible, 1731);
    eligible := agents - notFound - nonActive - nonEligible;
    formatted := true;
    assert multiset(requested * {0}) == if 0 in requested then multiset{0} else multiset{};
  }

  // The answers of the task server.

  /** Reported without agents or filters to name, or raised. */
  datatype Result = Reported(affected: seq<int>, failed: seq<Failure>) | Raised(code: int) | NoFilters

  predicate Fatal(answer: Answer, tolerated: set<int>) {
    answer.error != 0 && 1810 + answer.error !in tolerated
  }

  /** How many answers come before the first fatal one. */
  function Harmless(answers: seq<Answer>, tolerated: set<int>): (n: nat)
    ensures n <= |answers|
    ensures forall k :: 0 <= k < n ==> !Fatal(answers[k], tolerated)
    ensures n < |answers| ==> Fatal(answers[n], tolerated)
  {
    if answers == [] || Fatal(answers[0], tolerated) then 0 else 1 + Harmless(answers[1..], tolerated)
  }

  /** The agents whose answer is a success, in order. */
  function Affected(answers: seq<Answer>): seq<int> {
    if answers == [] then [] else (if answers[0].error == 0 then [answers[0].agent] else []) + Affected(answers[1..])
  }

  /** The others, with the code of their error. */
  function Failures(answers: seq<Answer>): seq<Failure> {
    if answers == [] then []
    else
      var first := if answers[0].error == 0 then [] else [Failure(answers[0].agent, 1810 + answers[0].error)];
      first + Failures(answers[1..])
  }

  /** What the answers of the server mean, after the agents that were refused before. */
  function Outcome(answers: seq<Answer>, refused: seq<Failure>, tolerated: set<int>): (result: Result)
    ensures !result.NoFilters?
  {
    var n := Harmless(answers, tolerated);
    if n < |answers| then Raised(1810 + answers[n].error) else Reported(Affected(answers), refused + Failures(answers))
  }

  /** The loops over the answers. */
  method Classify(answers: seq<Answer>, refused: seq<Failure>, tolerated: set<int>) returns (result: Result)
    ensures result == Outcome(answers, refused, tolerated)
  {
    var affected, failed := [], refused;
    var k := 0;
    assert answers[k..] == answers;
    while k < |answers|
      invariant 0 <= k <= |answers|
      invariant Harmless(answers, tolerated) == k + Harmless(answers[k..], tolerated)
      invariant Affected(answers) == affected + Affected(answers[k..])
      invariant refused + Failures(answers) == failed + Failures(answers[k..])
    {
      var answer := answers[k];
      assert answers[k..][1..] == answers[k + 1..];
      if answer.error == 0 {
        affected := affected + [answer.agent];
      } else if 1810 + answer.error in tolerated {
        failed := failed + [Failure(answer.agent, 1810 + answer.error)];
      } else {
        return Raised(1810 + answer.error);
      }
      k := k + 1;
    }
    result := Reported(affected, failed);
  }

  /** An error that is not among the codes put down to single agents, each 1810 above the server's number. */
  ghost predicate EndsTheCall(answers: seq<Answer>, k: nat, tolerated: set<int>)
    requires k < |answers|
  {
    answers[k].error != 0 && answers[k].error + 1810 !in tolerated
  }

  /** A call raises exactly when some answer is such an error, with the code of the first. */
  lemma RaisesIffFatal(answers: seq<Answer>, refused: seq<Failure>, tolerated: set<int>)
    ensures var result := Outcome(answers, refused, tolerated);
            && (result.Raised? <==> exists k: nat :: k < |answers| && EndsTheCall(answers, k, tolerated))
            && (result.Raised? ==>
                  exists k: nat :: k < |answers| && EndsTheCall(answers, k, tolerated)
                                   && result.code == 1810 + answers[k].error
                                   && forall j: nat :: j < k ==> !EndsTheCall(answers, j, tolerated))
  {
    var n := Harmless(answers, tolerated);
    forall k: nat | k < |answers| ensures EndsTheCall(answers, k, tolerated) <==> Fatal(answers[k], tolerated) {
    }
    if n < |answers| {
      assert EndsTheCall(answers, n, tolerated);
    }
  }

  /** The two lists hold what was answered, and nothing else. */
  lemma {:induction false} AsAnswered(answers: seq<Answer>, agent: int, code: int)
    ensures agent in Affected(answers) <==> Answer(agent, 0) in answers
    ensures Failure(agent, code) in Failures(answers) <==> code != 1810 && Answer(agent, code - 1810) in answers
  {
    if answers != [] {
      AsAnswered(answers[1..], agent, code);
      assert answers == [answers[0]] + answers[1..];
    }
  }

  /** Each agent that was answered is in one of the two lists. */
  lemma {:induction false} AnswersAreCounted(answers: seq<Answer>)
    ensures multiset(Affected(answers)) + multiset(Refused(Failures(answers))) == multiset(Who(answers))
  {
    hide Refused, Who;
    if answers == [] {
      OneRefused(Failure(0, 0));
      NothingFlat();
    } else {
      var answer := answers[0];
      AnswersAreCounted(answers[1..]);
      OneAnswer(answer);
      OneRefused(Failure(answer.agent, 1810 + answer.error));
      assert answers == [answer] + answers[1..];
      WhoAppend([answer], answers[1..]);
      RefusedAppend([Failure(answer.agent, 1810 + answer.error)], Failures(answers[1..]));
      Balance(multiset(Affected(answers[1..])), multiset(Refused(Failures(answers[1..]))), multiset(Who(answers[1..])),
          multiset{answer.agent});
      assert answer.error == 0 ==> Failures(answers) == Failures(answers[1..]);
      assert answer.error != 0 ==> Affected(answers) == Affected(answers[1..]);
    }
  }

  lemma Balance(a: multiset<int>, b: multiset<int>, c: multiset<int>, x: multiset<int>)
    requires a + b == c
    ensures (x + a) + b == x + c && a + (x + b) == x + c
  {
  }

  lemma OneAnswer(answer: Answer)
    ensures Who([answer]) == [answer.agent]
  {
  }

  /** The requested agents, as `order` of those the server is asked about and the list of those refused before. */
  ghost predicate Sifted(asked: set<int>, system: set<int>, items: seq<Row>, order: seq<int>, refused: seq<Failure>) {
    && multiset(order) == multiset(Eligible(asked, system, items))
    && multiset(Refused(refused)) + multiset(order) == multiset(asked)
    && forall f :: f in refused ==> f.agent in RefusedWith(f.code, asked, system, items)
  }

  /**
   `upgrade_agents` with chunks of 500 and the codes 1819 to 1822, `get_upgrade_result` with chunks of 97
   and the code 1813. Unless the refusals cannot be formatted, the result is what the server's answers to
   the eligible agents mean, in the order in which they are asked about.
   */
  method UpgradeAgents(requested: seq<int>, system: set<int>, items: seq<Row>, hasFilters: bool, size: nat,
                       tolerated: set<int>, server: (nat, seq<int>) -> seq<Answer>)
    returns (result: Result)
    requires QueryAnswer(items, Asked(requested), system) && size > 0
    ensures result.NoFilters? <==> !hasFilters && RefusedWith(1731, Asked(requested), system, items) != {}
    ensures !result.NoFilters? ==> exists order, refused ::
              Sifted(Asked(requested), system, items, order, refused)
              && result == Outcome(Flat(Created(server, order, size, 0)), refused, tolerated)
  {
    hide Refused, QueryAnswer, Refusal, RefusedWith, Eligible, Created, Outcome;
    if requested == [] {
      NobodyAsked(system, items, size, tolerated, server);
      assert Asked(requested) == {};
      return Reported([], []);
    }
    var refused, eligible, formatted := Partition(Asked(requested), system, items, hasFilters);
    if !formatted {
      return NoFilters;
    }
    var order := Listed(eligible);
    assert Sifted(Asked(requested), system, items, order, refused);
    var responses := CreateUpgradeTasks(order, size, server, 0);
    result := Classify(Flat(responses), refused, tolerated);
  }

  /**
   If the server answers for every agent it is asked about and nothing is raised, each requested agent is
   reported exactly once.
   */
  lemma EveryAgentIsReported(asked: set<int>, system: set<int>, items: seq<Row>, order: seq<int>, refused: seq<Failure>,
                             size: nat, tolerated: set<int>, server: (nat, seq<int>) -> seq<Answer>)
    requires Sifted(asked, system, items, order, refused) && size > 0 && AnswersAll(server)
    requires Outcome(Flat(Created(server, order, size, 0)), refused, tolerated).Reported?
    ensures var result := Outcome(Flat(Created(server, order, size, 0)), refused, tolerated);
            multiset(result.affected) + multiset(Refused(result.failed)) == multiset(asked)
  {
    hide Refused, Created, Who, RefusedWith, Eligible;
    var answers := Flat(Created(server, order, size, 0));
    CreatedAnswersAll(server, order, size, 0);
    AnswersAreCounted(answers);
    RefusedAppend(refused, Failures(answers));
  }

  function Asked(requested: seq<int>): set<int> {
    set a | a in requested
  }

  lemma NobodyAsked(system: set<int>, items: seq<Row>, size: nat, tolerated: set<int>,
      server: (nat, seq<int>) -> seq<Answer>)
    requires size > 0
    ensures RefusedWith(1731, {}, system, items) == {} && Sifted({}, system, items, [], [])
    ensures Outcome(Flat(Created(server, [], size, 0)), [], tolerated) == Reported([], [])
  {
    assert Eligible({}, system, items) == {} && Refused([]) == [];
    assert Created(server, [], size, 0) == [];
  }

  /** Without filters, an agent that the query does not return makes the formatting of its refusal fail. */
  lemma QueryWithoutFilters()
    ensures QueryAnswer([], {1}, {1}) && RefusedWith(1731, {1}, {1}, []) != {}
  {
    assert Refusal(1, {1}, []) == Some(1731);
    assert 1 in RefusedWith(1731, {1}, {1}, []);
  }

  // Waiting.

  datatype Report = Report(agent: int, status: string, error: string)

  datatype Verdict = Updated | Failed | Waiting

  predicate Says(status: string, text: string)
    ensures Says(status, text) <==> Strings.Contains(status, text)
  {
    Strings.FindIsFirst(status, text);
    Strings.Find(status, text).Some?
  }

  ghost predicate SaysUpdated(status: string) {
    status == "Updated" || Strings.Contains(status, "Legacy upgrade")
  }

  ghost predicate SaysFailed(status: string) {
    && !SaysUpdated(status)
    && (|| Strings.Contains(status, "Error")
        || Strings.Contains(status, "Timeout")
        || Strings.Contains(status, "cancelled"))
  }

  /** A report with such a status is the last one about its agent. */
  ghost predicate IsFinal(status: string) {
    SaysUpdated(status) || SaysFailed(status)
  }

  function Judge(status: string): (verdict: Verdict)
    ensures verdict == Updated <==> SaysUpdated(status)
    ensures verdict == Failed <==> SaysFailed(status)
  {
    if status == "Updated" || Says(status, "Legacy upgrade") then Updated
    else if Says(status, "Error") || Says(status, "Timeout") || Says(status, "cancelled") then Failed
    else Waiting
  }

  function Reason(report: Report): (reason: string)
    ensures reason == if Strings.Contains(report.status, "Error") then report.error else report.status
  {
    if Says(report.status, "Error") then report.error else report.status
  }

  /** What a status that is not final looks like. */
  lemma NotFinal(status: string)
    ensures !IsFinal(status) <==>
              && status != "Updated"
              && !Strings.Contains(status, "Legacy upgrade")
              && !Strings.Contains(status, "Error")
              && !Strings.Contains(status, "Timeout")
              && !Strings.Contains(status, "cancelled")
  {
  }

  /** The n-th poll about some agents reports on no others, and on none of them twice. */
  ghost predicate Honest(poll: (nat, set<int>) -> seq<Report>) {
    forall n: nat, asked: set<int> ::
      && (forall k :: 0 <= k < |poll(n, asked)| ==> poll(n, asked)[k].agent in asked)
      && (forall j, k :: 0 <= j < k < |poll(n, asked)| ==> poll(n, asked)[j].agent != poll(n, asked)[k].agent)
  }

  ghost function Settled(reports: seq<Report>): set<int> {
    set k | 0 <= k < |reports| && IsFinal(reports[k].status) :: reports[k].agent
  }

  /** The agents whose upgrade has not ended after `n` polls. */
  ghost function Pending(initial: set<int>, poll: (nat, set<int>) -> seq<Report>, n: nat): set<int> {
    if n == 0 then initial else var before := Pending(initial, poll, n - 1); before - Settled(poll(n - 1, before))
  }

  /** The upgrade of the report's agent ended with this report, in one of the first `n` polls. */
  ghost predicate EndedWith(initial: set<int>, poll: (nat, set<int>) -> seq<Report>, n: nat, report: Report) {
    exists m: nat :: m < n && report.agent in Pending(initial, poll, m) && report in poll(m, Pending(initial, poll, m))
                     && IsFinal(report.status)
  }

  lemma {:induction false} PendingShrinks(initial: set<int>, poll: (nat, set<int>) -> seq<Report>, m: nat, n: nat)
    requires m <= n
    ensures Pending(initial, poll, n) <= Pending(initial, poll, m)
    decreases n
  {
    if m < n {
      PendingShrinks(initial, poll, m, n - 1);
    }
  }

  lemma EndedLeaves(initial: set<int>, poll: (nat, set<int>) -> seq<Report>, m: nat, n: nat, report: Report)
    requires m < n && report in poll(m, Pending(initial, poll, m)) && IsFinal(report.status)
    ensures report.agent !in Pending(initial, poll, n)
  {
    var reports := poll(m, Pending(initial, poll, m));
    var k :| 0 <= k < |reports| && reports[k] == report;
    assert report.agent in Settled(reports);
    assert report.agent !in Pending(initial, poll, m + 1);
    PendingShrinks(initial, poll, m + 1, n);
  }

  lemma EndedIsNotPending(initial: set<int>, poll: (nat, set<int>) -> seq<Report>, n: nat, report: Report)
    ensures EndedWith(initial, poll, n, report) ==> report.agent !in Pending(initial, poll, n)
  {
    if EndedWith(initial, poll, n, report) {
      var m: nat :| m < n && report.agent in Pending(initial, poll, m) && report in poll(m, Pending(initial, poll, m))
                    && IsFinal(report.status);
      EndedLeaves(initial, poll, m, n, report);
    }
  }

  /** An upgrade ends once: no agent has two final reports. */
  lemma EndsOnce(initial: set<int>, poll: (nat, set<int>) -> seq<Report>, n: nat, first: Report, second: Report)
    requires Honest(poll) && EndedWith(initial, poll, n, first) && EndedWith(initial, poll, n, second)
        && first.agent == second.agent
    ensures first == second
  {
    var i: nat :| i < n && first.agent in Pending(initial, poll, i) && first in poll(i, Pending(initial, poll, i))
                  && IsFinal(first.status);
    var j: nat :| j < n && second.agent in Pending(initial, poll, j) && second in poll(j, Pending(initial, poll, j))
                  && IsFinal(second.status);
    if i < j {
      EndedLeaves(initial, poll, i, j, first);
    } else if j < i {
      EndedLeaves(initial, poll, j, i, second);
    }
  }

  /** Whoever is not pending has a final report, and the other way round. */
  lemma {:induction false} EndedOrPending(initial: set<int>, poll: (nat, set<int>) -> seq<Report>, n: nat, agent: int)
    requires Honest(poll) && agent in initial
    ensures agent in Pending(initial, poll, n)
        <==> !exists report: Report :: report.agent == agent && EndedWith(initial, poll, n, report)
    decreases n
  {
    if agent in Pending(initial, poll, n) {
      forall report: Report | report.agent == agent ensures !EndedWith(initial, poll, n, report) {
        EndedIsNotPending(initial, poll, n, report);
      }
    } else {
      EndedOrPending(initial, poll, n - 1, agent);
      var before := Pending(initial, poll, n - 1);
      if agent in before {
        var reports := poll(n - 1, before);
        var k :| 0 <= k < |reports| && IsFinal(reports[k].status) && reports[k].agent == agent;
        assert EndedWith(initial, poll, n, reports[k]);
      } else {
        var report: Report :| report.agent == agent && EndedWith(initial, poll, n - 1, report);
        var m: nat :| m < n - 1 && report.agent in Pending(initial, poll, m)
            && report in poll(m, Pending(initial, poll, m))
                      && IsFinal(report.status);
        assert EndedWith(initial, poll, n, report);
      }
    }
  }

  /** Whenever the agent is asked about in poll `m`, it is reported to have ended. */
  ghost predicate EndsAt(poll: (nat, set<int>) -> seq<Report>, m: nat, agent: int) {
    forall asked :: agent in asked ==> agent in Settled(poll(m, asked))
  }

  /** The wait is over once every agent has had a poll that reports its end. */
  lemma WaitIsOver(initial: set<int>, poll: (nat, set<int>) -> seq<Report>, n: nat)
    requires forall agent :: agent in initial ==> exists m: nat :: m < n && EndsAt(poll, m, agent)
    ensures Pending(initial, poll, n) == {}
  {
    forall agent ensures agent !in Pending(initial, poll, n) {
      PendingShrinks(initial, poll, 0, n);
      if agent in initial {
        var m: nat :| m < n && EndsAt(poll, m, agent);
        assert agent !in Pending(initial, poll, m + 1);
        PendingShrinks(initial, poll, m + 1, n);
      }
    }
  }

  /** No poll so far has said of an agent that is still pending that its upgrade succeeded or failed. */
  ghost predicate NothingFinal(initial: set<int>, poll: (nat, set<int>) -> seq<Report>, n: nat, pending: set<int>) {
    forall m: nat, report ::
      m < n && report in poll(m, Pending(initial, poll, m)) && report.agent in pending ==>
        !SaysUpdated(report.status) && !SaysFailed(report.status)
  }

  lemma PendingHaveNothingFinal(initial: set<int>, poll: (nat, set<int>) -> seq<Report>, n: nat)
    ensures NothingFinal(initial, poll, n, Pending(initial, poll, n))
  {
    forall m: nat, report |
      m < n && report in poll(m, Pending(initial, poll, m)) && report.agent in Pending(initial, poll, n)
      ensures !IsFinal(report.status)
    {
      if IsFinal(report.status) {
        EndedLeaves(initial, poll, m, n, report);
      }
    }
  }

  /** What the two dictionaries say is what the final report of the agent said. */
  ghost predicate Explained(versions: map<int, Option<string>>, failed: map<int, string>, version: int -> string,
                            initial: set<int>, poll: (nat, set<int>) -> seq<Report>, n: nat) {
    && (forall a :: a in versions && versions[a].Some? ==> versions[a] == Some(version(a)))
    && (forall a :: a in versions && versions[a].Some? ==>
          exists report: Report :: report.agent == a && SaysUpdated(report.status)
              && EndedWith(initial, poll, n, report))
    && (forall a :: a in failed ==>
          exists report: Report :: report.agent == a && SaysFailed(report.status)
              && failed[a] == (if Strings.Contains(report.status, "Error") then report.error else report.status)
              && EndedWith(initial, poll, n, report))
  }

  lemma ExplainedLater(versions: map<int, Option<string>>, failed: map<int, string>, version: int -> string,
                       initial: set<int>, poll: (nat, set<int>) -> seq<Report>, n: nat)
    requires Explained(versions, failed, version, initial, poll, n)
    ensures Explained(versions, failed, version, initial, poll, n + 1)
  {
    forall report: Report | EndedWith(initial, poll, n, report) ensures EndedWith(initial, poll, n + 1, report) {
      var m: nat :| m < n && report.agent in Pending(initial, poll, m) && report in poll(m, Pending(initial, poll, m))
                    && IsFinal(report.status);
      assert m < n + 1;
    }
  }

  /** One round: the reports in turn, with the dictionaries and the set of agents still to be asked about. */
  method Round(reports: seq<Report>, pending: set<int>, versions: map<int, Option<string>>, failed: map<int, string>,
               version: int -> string, ghost initial: set<int>, ghost poll: (nat, set<int>) -> seq<Report>,
               ghost n: nat)
    returns (left: set<int>, newVersions: map<int, Option<string>>, newFailed: map<int, string>)
    requires Honest(poll) && pending == Pending(initial, poll, n) && reports == poll(n, pending)
    requires versions.Keys + failed.Keys == initial && versions.Keys !! failed.Keys
    requires forall a :: a in pending <==> a in versions && versions[a].None?
    requires Explained(versions, failed, version, initial, poll, n)
    ensures left == Pending(initial, poll, n + 1)
    ensures newVersions.Keys + newFailed.Keys == initial && newVersions.Keys !! newFailed.Keys
    ensures forall a :: a in left <==> a in newVersions && newVersions[a].None?
    ensures Explained(newVersions, newFailed, version, initial, poll, n + 1)
  {
    hide EndedWith, Says, SaysUpdated, SaysFailed, Strings.Contains;
    ExplainedLater(versions, failed, version, initial, poll, n);
    left, newVersions, newFailed := pending, versions, failed;
    var j := 0;
    while j < |reports|
      invariant 0 <= j <= |reports|
      invariant left == pending - Settled(reports[..j])
      invariant newVersions.Keys + newFailed.Keys == initial && newVersions.Keys !! newFailed.Keys
      invariant forall a :: a in left <==> a in newVersions && newVersions[a].None?
      invariant Explained(newVersions, newFailed, version, initial, poll, n + 1)
    {
      var report := reports[j];
      var verdict := Judge(report.status);
      SettledStep(reports, j);
      if verdict != Waiting {
        EndsNow(initial, poll, n, report);
        assert report.agent in newVersions;
        if verdict == Updated {
          newVersions := newVersions[report.agent := Some(version(report.agent))];
        } else {
          newFailed := newFailed[report.agent := Reason(report)];
          newVersions := newVersions - {report.agent};
        }
        left := left - {report.agent};
      }
      j := j + 1;
    }
    assert reports[..j] == reports;
  }

  lemma SettledStep(reports: seq<Report>, j: nat)
    requires j < |reports|
    requires forall i, k :: 0 <= i < k < |reports| ==> reports[i].agent != reports[k].agent
    ensures Settled(reports[..j + 1]) ==
            Settled(reports[..j]) + if IsFinal(reports[j].status) then {reports[j].agent} else {}
    ensures reports[j].agent !in Settled(reports[..j])
  {
    assert reports[..j + 1] == reports[..j] + [reports[j]];
  }

  lemma EndsNow(initial: set<int>, poll: (nat, set<int>) -> seq<Report>, n: nat, report: Report)
    requires Honest(poll) && report in poll(n, Pending(initial, poll, n)) && IsFinal(report.status)
    ensures EndedWith(initial, poll, n + 1, report)
  {
    assert n < n + 1;
  }

  /**
   `check_status`, observed for a number of polls. At any time the updated, the failed and the pending
   agents share out the initial ones, and the loop ends with the first poll that leaves none pending.
   */
  method CheckStatus(initial: set<int>, poll: (nat, set<int>) -> seq<Report>, version: int -> string, polls: nat)
    returns (versions: map<int, Option<string>>, failed: map<int, string>, pending: set<int>, n: nat)
    requires Honest(poll)
    ensures versions.Keys + failed.Keys == initial && versions.Keys !! failed.Keys
    ensures forall a :: a in pending <==> a in versions && versions[a].None?
    ensures Explained(versions, failed, version, initial, poll, n)
    ensures pending == Pending(initial, poll, n) && NothingFinal(initial, poll, n, pending)
    ensures n <= polls && (n < polls ==> pending == {})
    ensures forall m: nat :: m < n ==> Pending(initial, poll, m) != {}
  {
    hide Explained, Honest, IsFinal, NothingFinal;
    versions := map a | a in initial :: None;
    failed, pending, n := map[], initial, 0;
    NothingToExplain(versions, failed, version, initial, poll);
    while pending != {} && n < polls
      invariant n <= polls && pending == Pending(initial, poll, n)
      invariant versions.Keys + failed.Keys == initial && versions.Keys !! failed.Keys
      invariant forall a :: a in pending <==> a in versions && versions[a].None?
      invariant Explained(versions, failed, version, initial, poll, n)
      invariant forall m: nat :: m < n ==> Pending(initial, poll, m) != {}
    {
      pending, versions, failed := Round(poll(n, pending), pending, versions, failed, version, initial, poll, n);
      n := n + 1;
    }
    PendingHaveNothingFinal(initial, poll, n);
  }

  lemma NothingToExplain(versions: map<int, Option<string>>, failed: map<int, string>, version: int -> string,
                         initial: set<int>, poll: (nat, set<int>) -> seq<Report>)
    requires failed == map[] && forall a :: a in versions ==> versions[a].None?
    ensures Explained(versions, failed, version, initial, poll, 0)
  {
  }
}
