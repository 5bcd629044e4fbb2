/**
 Statistics of the agents from one daemon, fetched page by page for all agents or in chunks of ids
 for some: both must come to the same list.
 */
module DaemonStats {
  import opened Sequences

  datatype Stat = Stat(id: int, data: string)

  datatype DaemonResult = DaemonResult(name: string, agents: seq<Stat>)

  /** Agents per request, to stay below the limit of the socket. */
  const CHUNK: nat := 74

  ghost predicate Above(s: seq<Stat>, id: int) {
    forall x :: x in s ==> x.id > id
  }

  /** In order of strictly growing ids. */
  ghost predicate Ascending(s: seq<Stat>) {
    s == [] || (Above(s[1..], s[0].id) && Ascending(s[1..]))
  }

  /** The agents after a given id, in the order of the list. */
  function Beyond(all: seq<Stat>, lastId: int): seq<Stat> {
    if all == [] then [] else (if all[0].id > lastId then [all[0]] else []) + Beyond(all[1..], lastId)
  }

  function Gathered(results: seq<DaemonResult>): seq<Stat> {
    if results == [] then [] else results[0].agents + Gathered(results[1..])
  }

  lemma {:induction false} GatheredAppend(results: seq<DaemonResult>, more: DaemonResult)
    ensures Gathered(results + [more]) == Gathered(results) + more.agents
  {
    if results == [] {
      assert (results + [more])[1..] == [];
    } else {
      assert (results + [more])[1..] == results[1..] + [more];
      GatheredAppend(results[1..], more);
    }
  }

  lemma GatheredOfOne(result: DaemonResult)
    ensures Gathered([result]) == result.agents
  {
    assert [result][1..] == [];
  }

  lemma GatheredOfNone()
    ensures Gathered([]) == []
  {
  }

  /** The `for ... else` around both loops: extend the entry of this daemon, or start one. */
  method Collect(results: seq<DaemonResult>, daemon: string, response: DaemonResult)
      returns (updated: seq<DaemonResult>)
    requires forall k :: 0 <= k < |results| ==> results[k].name == response.name
    requires response.name == daemon ==> |results| <= 1
    ensures Gathered(updated) == Gathered(results) + response.agents
    ensures forall k :: 0 <= k < |updated| ==> updated[k].name == response.name
    ensures |updated| == if response.name == daemon then 1 else |results| + 1
  {
    if results != [] && results[0].name == daemon {
      updated := [DaemonResult(daemon, results[0].agents + response.agents)];
      assert results[1..] == [] && updated[1..] == [];
    } else {
      GatheredAppend(results, response);
      updated := results + [response];
    }
  }

  /** The server's side of a page: how many agents it sends at most, or an error. */
  datatype Page = Limit(size: nat) | Broken

  lemma {:induction false} BeyondAll(s: seq<Stat>, lastId: int)
    requires Above(s, lastId)
    ensures Beyond(s, lastId) == s
  {
    if s != [] {
      assert s[0] in s && s == [s[0]] + s[1..];
      assert forall x :: x in s[1..] ==> x in s;
      BeyondAll(s[1..], lastId);
    }
  }

  /** The last id of what has been received, 0 before anything has. */
  function LastId(received: seq<Stat>): int {
    if received == [] then 0 else received[|received| - 1].id
  }

  lemma LastIdAppend(received: seq<Stat>, agents: seq<Stat>)
    ensures LastId([]) == 0
    ensures LastId(received + agents) == if agents == [] then LastId(received) else agents[|agents| - 1].id
  {
    assert agents == [] ==> received + agents == received;
  }

  /** A page request with the last id received continues where the last page stopped. */
  lemma {:induction false} NextPage(received: seq<Stat>, rest: seq<Stat>)
    requires Ascending(received + rest) && (received == [] ==> Above(rest, 0))
    ensures Beyond(received + rest, LastId(received)) == rest && Above(rest, LastId(received))
  {
    var all := received + rest;
    if received == [] {
      assert all == rest;
      BeyondAll(rest, 0);
    } else {
      assert all[1..] == received[1..] + rest;
      if |received| == 1 {
        assert received[1..] == [] && all[1..] == rest;
        BeyondAll(rest, received[0].id);
      } else {
        NextPage(received[1..], rest);
        assert received[|received| - 1] in all[1..];
      }
    }
  }

  /** The number of the page with which the exchange ends: the first that is broken or leaves nothing to send. */
  function FinalPage(rest: seq<Stat>, pages: nat -> Page, from: nat): nat
    decreases |rest|
  {
    match pages(from)
    case Broken => from
    case Limit(size) => if size == 0 || size >= |rest| then from else FinalPage(rest[size..], pages, from + 1)
  }

  /** How many agents the pages have sent when the exchange ends. */
  function Sent(rest: seq<Stat>, pages: nat -> Page, from: nat): (n: nat)
    ensures n <= |rest|
    decreases |rest|
  {
    match pages(from)
    case Broken => 0
    case Limit(size) => if size == 0 || size >= |rest| then |rest| else size + Sent(rest[size..], pages, from + 1)
  }

  /** How many agents the first `n` pages have room for. */
  function Room(pages: nat -> Page, n: nat): nat {
    if n == 0 then 0
    else Room(pages, n - 1) + match pages(n - 1) case Broken => 0 case Limit(size) => size
  }

  /** Page `j` is sent, and agents remain after it. */
  predicate GoesOn(all: seq<Stat>, pages: nat -> Page, j: nat) {
    pages(j).Limit? && Room(pages, j + 1) < |all|
  }

  lemma {:induction false} EndsFrom(all: seq<Stat>, pages: nat -> Page, from: nat)
    requires Room(pages, from) <= |all| && forall n: nat :: pages(n) != Limit(0)
    requires forall j: nat :: j < from ==> GoesOn(all, pages, j)
    ensures var rest := all[Room(pages, from)..];
            var last, sent := FinalPage(rest, pages, from), Room(pages, from) + Sent(rest, pages, from);
            && (forall j: nat :: j < last ==> GoesOn(all, pages, j)) && !GoesOn(all, pages, last)
            && match pages(last)
               case Broken => sent == Room(pages, last)
               case Limit(_) => Room(pages, last + 1) >= |all| && sent == |all|
    decreases |all| - Room(pages, from)
  {
    var rest := all[Room(pages, from)..];
    if pages(from).Limit? && pages(from).size < |rest| {
      assert Room(pages, from + 1) == Room(pages, from) + pages(from).size;
      assert rest[pages(from).size..] == all[Room(pages, from + 1)..];
      assert GoesOn(all, pages, from);
      EndsFrom(all, pages, from + 1);
    }
  }

  /**
   The exchange ends with the first page that is broken or has room for all the agents that are left; what has been
   sent by then is what the pages before have room for, or everything.
   */
  lemma ExchangeEnds(all: seq<Stat>, pages: nat -> Page)
    requires forall n: nat :: pages(n) != Limit(0)
    ensures var last, sent := FinalPage(all, pages, 0), Sent(all, pages, 0);
            && (forall j: nat :: j < last ==> GoesOn(all, pages, j)) && !GoesOn(all, pages, last)
            && match pages(last)
               case Broken => sent == Room(pages, last)
               case Limit(_) => Room(pages, last + 1) >= |all| && sent == |all|
  {
    hide FinalPage, Sent, GoesOn, Room;
    NoRoom(pages);
    assert all[0..] == all;
    EndsFrom(all, pages, 0);
  }

  lemma NoRoom(pages: nat -> Page)
    ensures Room(pages, 0) == 0
  {
  }

  lemma FinalPageStep(rest: seq<Stat>, pages: nat -> Page, page: nat, sent: nat)
    requires pages(page) != Limit(0)
    requires pages(page).Limit? ==> sent == if pages(page).size < |rest| then pages(page).size else |rest|
    ensures pages(page).Broken? || sent == |rest| ==> FinalPage(rest, pages, page) == page
    ensures pages(page).Limit? && sent < |rest|
        ==> FinalPage(rest, pages, page) == FinalPage(rest[sent..], pages, page + 1)
    ensures pages(page).Broken? ==> Sent(rest, pages, page) == 0
    ensures pages(page).Limit? && sent == |rest| ==> Sent(rest, pages, page) == sent
    ensures pages(page).Limit? && sent < |rest|
        ==> Sent(rest, pages, page) == sent + Sent(rest[sent..], pages, page + 1)
  {
  }

  lemma Received(received: seq<Stat>, rest: seq<Stat>, sent: nat)
    requires sent <= |rest|
    ensures received + rest == (received + rest[..sent]) + rest[sent..]
    ensures received <= received + rest
    ensures rest[sent..] == [] ==> received + rest[..sent] == received + rest
  {
  }

  /**
   The loop over pages. `all` is what the daemon knows, `pages` how it cuts its answers, none of them
   empty while agents remain. The request stops at the first error.
   */
  method GetAllAgents(daemon: string, name: string, all: seq<Stat>, pages: nat -> Page)
      returns (results: seq<DaemonResult>, failed: bool)
    requires Ascending(all) && Above(all, 0)
    requires forall n: nat :: pages(n) != Limit(0)
    ensures Gathered(results) == all[..Sent(all, pages, 0)]
    ensures failed <==> pages(FinalPage(all, pages, 0)) == Broken
    ensures !failed ==> Gathered(results) == all
    ensures name == daemon && !failed ==> results == [DaemonResult(daemon, all)]
  {
    hide Beyond, Ascending, Above, Gathered, LastId, FinalPage, Sent;
    GatheredOfNone();
    LastIdAppend([], []);
    results, failed := [], false;
    var lastId := 0;
    var page: nat := 0;
    ghost var received, rest := [], all;
    while true
      invariant received == [] ==> rest == all
      invariant all == received + rest && Gathered(results) == received && lastId == LastId(received)
      invariant forall k :: 0 <= k < |results| ==> results[k].name == name
      invariant name == daemon ==> |results| <= 1
      invariant FinalPage(all, pages, 0) == FinalPage(rest, pages, page)
      invariant Sent(all, pages, 0) == |received| + Sent(rest, pages, page)
      decreases |rest|
    {
      if pages(page).Broken? {
        FinalPageStep(rest, pages, page, 0);
        assert all[..|received|] == received;
        failed := true;
        return;
      }
      NextPage(received, rest);
      var remaining := Beyond(all, lastId);
      assert remaining == rest;
      var size := pages(page).size;
      var agents := if size < |remaining| then remaining[..size] else remaining;
      FinalPageStep(rest, pages, page, |agents|);
      results := Collect(results, daemon, DaemonResult(name, agents));
      LastIdAppend(received, agents);
      if |agents| > 0 {
        lastId := agents[|agents| - 1].id;
      }
      assert agents == rest[..|agents|];
      Received(received, rest, |agents|);
      received, rest := received + agents, rest[|agents|..];
      if |agents| == |remaining| {
        break;
      }
      page := page + 1;
    }
    assert rest == [] && received == all;
    if name == daemon {
      OneResult(results, daemon);
    }
  }

  lemma OneResult(results: seq<DaemonResult>, daemon: string)
    requires |results| == 1 && results[0].name == daemon
    ensures results == [DaemonResult(daemon, Gathered(results))]
  {
    assert results == [results[0]];
    GatheredOfOne(results[0]);
  }

  // Chunks.

  function Answers(ids: seq<int>, stat: int -> Stat): (stats: seq<Stat>) {
    if ids == [] then [] else [stat(ids[0])] + Answers(ids[1..], stat)
  }

  lemma {:induction false} AnswersAppend(first: seq<int>, second: seq<int>, stat: int -> Stat)
    ensures Answers(first + second, stat) == Answers(first, stat) + Answers(second, stat)
  {
    if first == [] {
      assert first + second == second;
    } else {
      assert (first + second)[1..] == first[1..] + second;
      AnswersAppend(first[1..], second, stat);
    }
  }

  /** The ids of the chunks whose request succeeds. */
  function Served(chunks: seq<seq<int>>, works: seq<int> -> bool): seq<int> {
    if chunks == [] then [] else (if works(chunks[0]) then chunks[0] else []) + Served(chunks[1..], works)
  }

  lemma {:induction false} AnswersAt(ids: seq<int>, stat: int -> Stat)
    ensures |Answers(ids, stat)| == |ids| && forall k :: 0 <= k < |ids| ==> Answers(ids, stat)[k] == stat(ids[k])
  {
    if ids != [] {
      AnswersAt(ids[1..], stat);
    }
  }

  lemma {:induction false} ServedAppend(chunks: seq<seq<int>>, chunk: seq<int>, works: seq<int> -> bool)
    ensures Served(chunks + [chunk], works) == Served(chunks, works) + if works(chunk) then chunk else []
  {
    if chunks == [] {
      assert ([] + [chunk])[0] == chunk && ([] + [chunk])[1..] == [];
    } else {
      assert (chunks + [chunk])[1..] == chunks[1..] + [chunk];
      ServedAppend(chunks[1..], chunk, works);
    }
  }

  /** An id is served if and only if the request of a chunk with it succeeds. */
  lemma {:induction false} IsServed(chunks: seq<seq<int>>, works: seq<int> -> bool, id: int)
    ensures id in Served(chunks, works) <==> exists chunk :: chunk in chunks && works(chunk) && id in chunk
  {
    if chunks != [] {
      IsServed(chunks[1..], works, id);
      assert chunks == [chunks[0]] + chunks[1..];
      assert chunks[0] in chunks;
    }
  }

  function Insert(s: seq<Stat>, x: Stat): seq<Stat> {
    if s == [] || x.id < s[0].id then [x] + s else [s[0]] + Insert(s[1..], x)
  }

  /** `sort(key=lambda d: d['id'])` */
  function Sorted(s: seq<Stat>): seq<Stat> {
    if s == [] then [] else Insert(Sorted(s[..|s| - 1]), s[|s| - 1])
  }

  ghost predicate From(s: seq<Stat>, id: int) {
    forall x :: x in s ==> x.id >= id
  }

  ghost predicate NonDescending(s: seq<Stat>) {
    s == [] || (From(s[1..], s[0].id) && NonDescending(s[1..]))
  }

  lemma {:induction false} InsertKeeps(s: seq<Stat>, x: Stat)
    ensures multiset(Insert(s, x)) == multiset(s) + multiset{x}
    ensures forall y :: y in Insert(s, x) ==> y in s || y == x
  {
    if s != [] && x.id >= s[0].id {
      InsertKeeps(s[1..], x);
      assert s == [s[0]] + s[1..];
    }
  }

  lemma {:induction false} LeastFirst(s: seq<Stat>)
    requires NonDescending(s) && s != []
    ensures forall x :: x in s ==> x.id >= s[0].id
  {
    assert s == [s[0]] + s[1..];
  }

  lemma {:induction false} InsertSorts(s: seq<Stat>, x: Stat)
    requires NonDescending(s)
    ensures NonDescending(Insert(s, x))
  {
    var all := Insert(s, x);
    if s == [] || x.id < s[0].id {
      assert all[1..] == s;
      if s != [] {
        LeastFirst(s);
      }
    } else {
      InsertSorts(s[1..], x);
      InsertKeeps(s[1..], x);
      assert all[1..] == Insert(s[1..], x);
    }
  }

  lemma {:induction false} SortedSorts(s: seq<Stat>)
    ensures NonDescending(Sorted(s)) && multiset(Sorted(s)) == multiset(s)
  {
    hide NonDescending, Insert;
    if s != [] {
      SortedSorts(s[..|s| - 1]);
      InsertSorts(Sorted(s[..|s| - 1]), s[|s| - 1]);
      InsertKeeps(Sorted(s[..|s| - 1]), s[|s| - 1]);
      assert s == s[..|s| - 1] + [s[|s| - 1]];
    } else {
      EmptyIsSorted();
    }
  }

  lemma EmptyIsSorted()
    ensures NonDescending([])
  {
  }

  lemma FirstsAgree(a: seq<Stat>, b: seq<Stat>)
    requires NonDescending(a) && Ascending(b) && a != [] && b != [] && multiset(a) == multiset(b)
    ensures a[0] == b[0]
  {
    LeastFirst(a);
    assert forall x :: x in b ==> x == b[0] || x.id > b[0].id by {
      assert b == [b[0]] + b[1..];
    }
    assert b[0] in multiset(a) && a[0] in multiset(b);
  }

  /** A list sorted by distinct ids is determined by what is in it. */
  lemma {:induction false} SortedIsUnique(a: seq<Stat>, b: seq<Stat>)
    requires NonDescending(a) && Ascending(b) && multiset(a) == multiset(b)
    ensures a == b
  {
    assert |a| == |multiset(a)| == |multiset(b)| == |b|;
    if b != [] {
      FirstsAgree(a, b);
      assert a == [a[0]] + a[1..] && b == [b[0]] + b[1..];
      assert multiset(a[1..]) == multiset(a) - multiset{a[0]} == multiset(b[1..]);
      SortedIsUnique(a[1..], b[1..]);
    }
  }

  /**
   The loop over chunks and the final sort, with the requests it sends: each for fewer than 75 agents, all of them
   together for every eligible agent. The agents of a failed request are missing, the others are there, in order
   of id.
   */
  method GetSomeAgents(daemon: string, eligible: seq<int>, stat: int -> Stat, works: seq<int> -> bool)
      returns (results: seq<DaemonResult>, ghost requests: seq<seq<int>>)
    ensures Flat(requests) == eligible && forall k :: 0 <= k < |requests| ==> 0 < |requests[k]| < 75
    ensures |results| <= 1
    ensures forall k :: 0 <= k < |results| ==> results[k].name == daemon && NonDescending(results[k].agents)
    ensures Gathered(results) == Sorted(Answers(Served(requests, works), stat))
  {
    hide Chunks, Sorted, NonDescending, Gathered, Served, Answers;
    GatheredOfNone();
    ServedOfNone(works);
    AnswersOfNone(stat);
    results, requests := [], [];
    var rest := Chunks(eligible, CHUNK);
    while rest != []
      invariant requests + rest == Chunks(eligible, CHUNK)
      invariant Gathered(results) == Answers(Served(requests, works), stat) && |results| <= 1
      invariant forall k :: 0 <= k < |results| ==> results[k].name == daemon
      decreases |rest|
    {
      var chunk := rest[0];
      ServedAppend(requests, chunk, works);
      if works(chunk) {
        results := Collect(results, daemon, DaemonResult(daemon, Answers(chunk, stat)));
        AnswersAppend(Served(requests, works), chunk, stat);
      } else {
        assert Served(requests, works) + [] == Served(requests, works);
      }
      requests, rest := requests + [chunk], rest[1..];
    }
    assert requests == Chunks(eligible, CHUNK);
    ChunksAreTheList(eligible, CHUNK);
    GatheredOfNone();
    SortedOfEmpty();
    if results != [] {
      var agents := results[0].agents;
      assert results == [results[0]];
      GatheredOfOne(results[0]);
      SortedSorts(agents);
      results := [DaemonResult(daemon, Sorted(agents))];
      GatheredOfOne(results[0]);
    }
  }

  lemma ServedOfNone(works: seq<int> -> bool)
    ensures Served([], works) == []
  {
  }

  lemma AnswersOfNone(stat: int -> Stat)
    ensures Answers([], stat) == []
  {
  }

  lemma SortedOfEmpty()
    ensures Sorted([]) == []
  {
  }

  lemma {:induction false} AllServed(chunks: seq<seq<int>>, works: seq<int> -> bool)
    requires forall k :: 0 <= k < |chunks| ==> works(chunks[k])
    ensures Served(chunks, works) == Flat(chunks)
  {
    if chunks != [] {
      AllServed(chunks[1..], works);
    }
  }

  /** When no request fails, asking for every agent in any order gives, merged and sorted, what the pages give. */
  lemma ChunkedEqualsPaged(all: seq<Stat>, requests: seq<seq<int>>, stat: int -> Stat, works: seq<int> -> bool)
    requires Ascending(all) && multiset(Answers(Flat(requests), stat)) == multiset(all)
    requires forall k :: 0 <= k < |requests| ==> works(requests[k])
    ensures Sorted(Answers(Served(requests, works), stat)) == all
  {
    AllServed(requests, works);
    var eligible := Flat(requests);
    SortedSorts(Answers(eligible, stat));
    SortedIsUnique(Sorted(Answers(eligible, stat)), all);
  }
}
