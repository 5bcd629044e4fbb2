/**
 The listings of rules, decoders and ruleset files. Each starts from everything that is loaded and
 takes elements out of that very list with `remove`, which drops the first equal element and raises when
 there is none, while it walks over a copy. Loaded elements may be repeated.
 */
module RulesetFilter {
  import opened Options
  import Strings

  datatype Listing<T, K> = Found(items: seq<T>, missing: seq<K>) | Error(code: int)

  /** `s.remove(x)`; without an `x` it raises instead. */
  function RemoveFirst<T(==)>(s: seq<T>, x: T): seq<T>
    requires x in s
  {
    if s[0] == x then s[1..] else [s[0]] + RemoveFirst(s[1..], x)
  }

  /** `n` removals, each guarded by `x in s`. */
  ghost function RemoveUpTo<T>(s: seq<T>, x: T, n: nat): seq<T>
    decreases n
  {
    if n == 0 then s else var t := RemoveUpTo(s, x, n - 1); if x in t then RemoveFirst(t, x) else t
  }

  /** What a listing should be: the elements that pass, repetitions and order included. */
  ghost function Kept<T>(s: seq<T>, passes: T -> bool): seq<T> {
    if s == [] then [] else (if passes(s[0]) then [s[0]] else []) + Kept(s[1..], passes)
  }

  lemma {:induction false} RemoveFirstTakesOne<T>(s: seq<T>, x: T)
    requires x in s
    ensures multiset(RemoveFirst(s, x)) == multiset(s) - multiset{x}
  {
    assert s == [s[0]] + s[1..];
    if s[0] != x {
      RemoveFirstTakesOne(s[1..], x);
    }
  }

  lemma {:induction false} KeptWithout<T>(s: seq<T>, x: T, passes: T -> bool)
    requires x in s && !passes(x)
    ensures Kept(RemoveFirst(s, x), passes) == Kept(s, passes)
  {
    if s[0] != x {
      KeptWithout(s[1..], x, passes);
      assert RemoveFirst(s, x)[1..] == RemoveFirst(s[1..], x);
    }
  }

  function Less(n: nat, m: nat): nat {
    if n <= m then 0 else n - m
  }

  lemma {:induction false} RemoveUpToTakes<T>(s: seq<T>, x: T, n: nat)
    ensures multiset(RemoveUpTo(s, x, n)) == multiset(s)[x := Less(multiset(s)[x], n)]
    decreases n
  {
    if n > 0 {
      RemoveUpToTakes(s, x, n - 1);
      var t := RemoveUpTo(s, x, n - 1);
      assert x in t <==> multiset(t)[x] > 0;
      if x in t {
        RemoveFirstTakesOne(t, x);
      }
    }
  }

  lemma {:induction false} RemoveUpToKeeps<T>(s: seq<T>, x: T, n: nat, passes: T -> bool)
    requires !passes(x)
    ensures Kept(RemoveUpTo(s, x, n), passes) == Kept(s, passes)
    decreases n
  {
    if n > 0 {
      RemoveUpToKeeps(s, x, n - 1, passes);
      var t := RemoveUpTo(s, x, n - 1);
      if x in t {
        KeptWithout(t, x, passes);
      }
    }
  }

  lemma {:induction false} KeptIsAll<T>(s: seq<T>, passes: T -> bool)
    requires forall x :: x in s ==> passes(x)
    ensures Kept(s, passes) == s
  {
    if s != [] {
      assert s == [s[0]] + s[1..];
      KeptIsAll(s[1..], passes);
    }
  }

  /**
   The working list when `rest` is still to be visited: what passes is untouched, and what fails is there
   no more often than it will be visited, or, when one removal a visit is all there is, exactly as often.
   */
  ghost predicate InStep<T(!new)>(data: seq<T>, all: seq<T>, rest: seq<T>, passes: T -> bool, once: bool) {
    && Kept(data, passes) == Kept(all, passes)
    && (forall x :: !passes(x) ==> multiset(data)[x] <= multiset(rest)[x])
    && (once ==> forall x :: !passes(x) ==> multiset(data)[x] == multiset(rest)[x])
  }

  lemma AtTheStart<T(!new)>(all: seq<T>, passes: T -> bool, once: bool)
    ensures InStep(all, all, all[0..], passes, once)
  {
    assert all[0..] == all;
  }

  /** One visit: an element that passes is left alone, one that fails is removed at least once. */
  lemma Visit<T(!new)>(data: seq<T>, all: seq<T>, k: nat, n: nat, passes: T -> bool, once: bool)
    requires k < |all| && InStep(data, all, all[k..], passes, once)
    requires n > 0 <==> !passes(all[k])
    requires once ==> n <= 1
    ensures InStep(RemoveUpTo(data, all[k], n), all, all[k + 1..], passes, once)
    ensures once && n > 0 ==> all[k] in data
  {
    hide RemoveUpTo, Kept;
    var x := all[k];
    assert all[k..] == [x] + all[k + 1..];
    RemoveUpToTakes(data, x, n);
    if n > 0 {
      RemoveUpToKeeps(data, x, n, passes);
      assert once ==> multiset(data)[x] > 0;
    } else {
      NoRemoval(data, x);
    }
  }

  lemma NoRemoval<T>(data: seq<T>, x: T)
    ensures RemoveUpTo(data, x, 0) == data
  {
  }

  lemma AtTheEnd<T(!new)>(data: seq<T>, all: seq<T>, passes: T -> bool, once: bool)
    requires InStep(data, all, all[|all|..], passes, once)
    ensures data == Kept(all, passes)
  {
    forall x | x in data ensures passes(x) {
      assert multiset(data)[x] > 0;
    }
    KeptIsAll(data, passes);
  }

  // Requested ids and names that are not loaded.

  /** `if x in missing: missing.remove(x)` */
  function Seen<K(==)>(missing: seq<K>, x: K): seq<K> {
    if x in missing then RemoveFirst(missing, x) else missing
  }

  ghost predicate Outstanding<K>(missing: seq<K>, requested: seq<K>, seen: seq<K>) {
    multiset(missing) == multiset(requested) - multiset(seen)
  }

  lemma OutstandingAtTheStart<K>(requested: seq<K>)
    ensures Outstanding(requested, requested, [])
  {
  }

  lemma OutstandingStep<K>(missing: seq<K>, requested: seq<K>, seen: seq<K>, x: K)
    requires Outstanding(missing, requested, seen)
    ensures Outstanding(Seen(missing, x), requested, seen + [x])
  {
    assert x in missing <==> multiset(missing)[x] > 0;
    if x in missing {
      RemoveFirstTakesOne(missing, x);
    }
  }

  /** An id is reported missing exactly when it is requested more often than it is loaded. */
  lemma ReportedMissing<K>(missing: seq<K>, requested: seq<K>, loaded: seq<K>, x: K)
    requires Outstanding(missing, requested, loaded)
    ensures x in missing <==> multiset(requested)[x] > multiset(loaded)[x]
    ensures multiset(requested)[x] == 1 ==> (x in missing <==> x !in loaded)
  {
    assert x in missing <==> multiset(missing)[x] > 0;
    assert x in loaded <==> multiset(loaded)[x] > 0;
  }

  // Rules.

  datatype Requirement = Groups | PciDss | Gpg13 | Gdpr | Hipaa | Nist80053 | Tsc | Mitre

  datatype Rule = Rule(id: int, level: int, filename: string, dirname: string, status: string,
                       tags: map<Requirement, seq<string>>, description: string)

  datatype Criterion =
    | HasTag(requirement: Requirement, value: string)
    | InDirname(dirname: string)
    | FromFiles(filenames: seq<string>)
    | WithIds(ids: seq<int>)
    | OfLevels(levels: seq<int>)
    | InStatus(statuses: seq<string>)
  {
    /** `if value` */
    predicate Given() {
      match this
      case HasTag(_, value) => value != ""
      case InDirname(dirname) => dirname != ""
      case FromFiles(filenames) => filenames != []
      case WithIds(ids) => ids != []
      case OfLevels(levels) => levels != []
      case InStatus(statuses) => statuses != []
    }

    /** The condition under which the rule is removed. */
    predicate Rejects(r: Rule) {
      match this
      case HasTag(requirement, value) => requirement !in r.tags || value !in r.tags[requirement]
      case InDirname(dirname) => Strings.Find(r.dirname, dirname).None?
      case FromFiles(filenames) => r.filename !in filenames
      case WithIds(ids) => r.id !in ids
      case OfLevels(levels) =>
        || (|levels| == 1 && levels[0] != r.level)
        || (|levels| == 2 && !(levels[0] <= r.level <= levels[1]))
      case InStatus(statuses) => r.status !in statuses
    }
  }

  datatype RuleQuery = RuleQuery(tags: seq<(Requirement, string)>, dirname: string, filenames: seq<string>,
                                 ids: seq<int>, levels: seq<int>, status: Option<string>)

  /** `check_status` and the line after it. */
  function Statuses(status: Option<string>): Option<seq<string>> {
    if status.None? || status.value == "all" then Some(["enabled", "disabled"])
    else if status.value == "enabled" || status.value == "disabled" then Some([status.value])
    else None
  }

  function Parameters(q: RuleQuery, statuses: seq<string>): seq<Criterion> {
    seq(|q.tags|, i requires 0 <= i < |q.tags| => HasTag(q.tags[i].0, q.tags[i].1))
    + [InDirname(q.dirname), FromFiles(q.filenames), WithIds(q.ids), OfLevels(q.levels), InStatus(statuses)]
  }

  ghost predicate HasStatus(actual: string, wanted: Option<string>) {
    if wanted.None? || wanted.value == "all" then actual in {"enabled", "disabled"} else actual == wanted.value
  }

  ghost predicate HasLevel(level: int, wanted: seq<int>) {
    (|wanted| == 1 ==> level == wanted[0]) && (|wanted| == 2 ==> wanted[0] <= level <= wanted[1])
  }

  ghost predicate Carries(r: Rule, tag: (Requirement, string)) {
    tag.1 == "" || (tag.0 in r.tags && tag.1 in r.tags[tag.0])
  }

  /** What the request asks for: all given filters at once. */
  ghost predicate RuleMatches(r: Rule, q: RuleQuery) {
    && (forall k :: 0 <= k < |q.tags| ==> Carries(r, q.tags[k]))
    && (q.dirname == "" || Strings.Contains(r.dirname, q.dirname))
    && (q.filenames == [] || r.filename in q.filenames)
    && (q.ids == [] || r.id in q.ids)
    && HasLevel(r.level, q.levels)
    && HasStatus(r.status, q.status)
  }

  ghost predicate Rejected(r: Rule, criteria: seq<Criterion>) {
    exists k :: 0 <= k < |criteria| && criteria[k].Given() && criteria[k].Rejects(r)
  }

  lemma RejectedOrMatches(r: Rule, q: RuleQuery)
    requires Statuses(q.status).Some?
    ensures Rejected(r, Parameters(q, Statuses(q.status).value)) <==> !RuleMatches(r, q)
  {
    var n, c := |q.tags|, Parameters(q, Statuses(q.status).value);
    Strings.FindIsFirst(r.dirname, q.dirname);
    assert |c| == n + 5 && c[n] == InDirname(q.dirname) && c[n + 1] == FromFiles(q.filenames)
        && c[n + 2] == WithIds(q.ids)
      && c[n + 3] == OfLevels(q.levels) && c[n + 4] == InStatus(Statuses(q.status).value);
    assert forall k :: 0 <= k < n ==> (c[k].Given() && c[k].Rejects(r) <==> !Carries(r, q.tags[k]));
    if Strings.Contains(r.dirname, q.dirname) {
      assert Strings.Find(r.dirname, q.dirname).Some?;
    }
  }

  ghost function Ids(rules: seq<Rule>): seq<int> {
    seq(|rules|, i requires 0 <= i < |rules| => rules[i].id)
  }

  lemma IdsStep(rules: seq<Rule>, k: nat)
    requires k < |rules|
    ensures Ids(rules[..0]) == []
    ensures Ids(rules[..k + 1]) == Ids(rules[..k]) + [rules[k].id]
  {
  }

  /** The loop over the parameters for one rule, ending with the first that rejects it. */
  method Consider(r: Rule, rules: seq<Rule>, parameters: seq<Criterion>) returns (left: seq<Rule>)
    requires Rejected(r, parameters) ==> r in rules
    ensures left == RemoveUpTo(rules, r, if Rejected(r, parameters) then 1 else 0)
  {
    var i := 0;
    while i < |parameters|
      invariant 0 <= i <= |parameters|
      invariant forall j :: 0 <= j < i ==> !(parameters[j].Given() && parameters[j].Rejects(r))
    {
      if parameters[i].Given() && parameters[i].Rejects(r) {
        NoRemoval(rules, r);
        return RemoveFirst(rules, r);
      }
      i := i + 1;
    }
    left := rules;
  }

  /** `get_rules` up to the presentation of its result. */
  method GetRules(loaded: seq<Rule>, q: RuleQuery) returns (listing: Listing<Rule, int>)
    ensures listing.Error? <==> |q.levels| > 2 || (q.status.Some? && q.status.value !in ["all", "enabled", "disabled"])
    ensures listing.Error? ==> listing.code == if |q.levels| > 2 then 1203 else 1202
    ensures listing.Found? ==> listing.items == Kept(loaded, r => RuleMatches(r, q))
    ensures listing.Found? ==> Outstanding(listing.missing, q.ids, Ids(loaded))
  {
    hide RuleMatches, Kept, Parameters, InStep, Ids, Rejected, Outstanding, RemoveUpTo, Seen;
    if |q.levels| > 2 {
      return Error(1203);
    }
    var statuses := Statuses(q.status);
    if statuses.None? {
      return Error(1202);
    }
    var parameters := Parameters(q, statuses.value);
    ghost var passes := r => RuleMatches(r, q);
    var rules, missing := loaded, q.ids;
    AtTheStart(loaded, passes, true);
    OutstandingAtTheStart(q.ids);
    IdsOfNone(loaded);
    var k := 0;
    while k < |loaded|
      invariant 0 <= k <= |loaded|
      invariant InStep(rules, loaded, loaded[k..], passes, true)
      invariant Outstanding(missing, q.ids, Ids(loaded[..k]))
    {
      var r := loaded[k];
      IdsStep(loaded, k);
      OutstandingStep(missing, q.ids, Ids(loaded[..k]), r.id);
      missing := Seen(missing, r.id);
      RejectedOrMatches(r, q);
      Visit(rules, loaded, k, if Rejected(r, parameters) then 1 else 0, passes, true);
      rules := Consider(r, rules, parameters);
      k := k + 1;
    }
    assert loaded[..k] == loaded;
    AtTheEnd(rules, loaded, passes, true);
    listing := Found(rules, missing);
  }

  lemma IdsOfNone(rules: seq<Rule>)
    ensures Ids(rules[..0]) == []
  {
  }

  // Decoders.

  datatype Decoder = Decoder(name: string, filename: string, dirname: string, status: string, position: int,
                             details: map<string, string>)

  datatype DecoderQuery = DecoderQuery(dirname: string, filenames: seq<string>, names: seq<string>, parents: bool,
                                       status: Option<string>)

  datatype Key = Dirname | Filename | Name | Parents | Status

  const KEYS: seq<Key> := [Dirname, Filename, Name, Parents, Status]

  predicate KeyGiven(key: Key, q: DecoderQuery) {
    match key
    case Dirname => q.dirname != ""
    case Filename => q.filenames != []
    case Name => q.names != []
    case Parents => q.parents
    case Status => true
  }

  ghost predicate KeyRejects(key: Key, d: Decoder, q: DecoderQuery, statuses: seq<string>) {
    KeyGiven(key, q) &&
    match key
    case Dirname => d.dirname != q.dirname
    case Filename => d.filename !in q.filenames
    case Name => d.name !in q.names
    case Parents => "parent" in d.details
    case Status => d.status !in statuses
  }

  /** What the request asks for: all given filters at once. */
  ghost predicate DecoderMatches(d: Decoder, q: DecoderQuery) {
    && (q.dirname == "" || d.dirname == q.dirname)
    && (q.filenames == [] || d.filename in q.filenames)
    && (q.names == [] || d.name in q.names)
    && !(q.parents && "parent" in d.details)
    && HasStatus(d.status, q.status)
  }

  lemma AKeyRejects(d: Decoder, q: DecoderQuery, statuses: seq<string>)
    requires Statuses(q.status) == Some(statuses)
    ensures DecoderMatches(d, q) <==> forall j :: 0 <= j < 5 ==> !KeyRejects(KEYS[j], d, q, statuses)
  {
    assert KEYS[0] == Dirname && KEYS[1] == Filename && KEYS[2] == Name && KEYS[3] == Parents && KEYS[4] == Status;
  }

  lemma SeenIsPart<K>(missing: seq<K>, x: K, y: K)
    requires y in Seen(missing, x)
    ensures y in missing
  {
    if x in missing {
      RemoveFirstTakesOne(missing, x);
      assert y in multiset(RemoveFirst(missing, x));
    }
  }

  /** The loop over the parameters for one decoder; it goes on after a removal. */
  method ConsiderDecoder(d: Decoder, decoders: seq<Decoder>, missing: seq<string>, q: DecoderQuery,
      statuses: seq<string>)
    returns (left: seq<Decoder>, still: seq<string>, ghost n: nat)
    requires Statuses(q.status) == Some(statuses)
    requires forall name :: name in missing ==> name in q.names
    ensures left == RemoveUpTo(decoders, d, n) && (n > 0 <==> !DecoderMatches(d, q))
    ensures still == Seen(missing, d.name)
  {
    hide DecoderMatches;
    AKeyRejects(d, q, statuses);
    left, still, n := decoders, missing, 0;
    var i := 0;
    while i < 5
      invariant 0 <= i <= 5
      invariant left == RemoveUpTo(decoders, d, n) && (n > 0 ==> !DecoderMatches(d, q))
      invariant forall j :: 0 <= j < i && KeyRejects(KEYS[j], d, q, statuses) ==> n > 0
      invariant still == if i > 2 then Seen(missing, d.name) else missing
    {
      var key := KEYS[i];
      var drop := false;
      if KeyGiven(key, q) {
        if key == Name {
          if d.name !in q.names && d in left {
            drop := true;
          } else if d.name in still {
            still := RemoveFirst(still, d.name);
          }
        } else if key == Status && d.status !in statuses && d in left {
          drop := true;
        } else if key == Filename && d.filename !in q.filenames && d in left {
          drop := true;
        } else if key == Dirname && d.dirname != q.dirname && d in left {
          drop := true;
        } else if "parent" in d.details && q.parents && d in left {
          assert KEYS[3] == Parents && KeyRejects(KEYS[3], d, q, statuses);
          drop := true;
        }
      }
      if drop || KeyRejects(key, d, q, statuses) {
        n := n + 1;
      }
      if drop {
        left := RemoveFirst(left, d);
      }
      i := i + 1;
    }
  }

  ghost function Names(decoders: seq<Decoder>): seq<string> {
    seq(|decoders|, i requires 0 <= i < |decoders| => decoders[i].name)
  }

  lemma NamesOfNone(decoders: seq<Decoder>)
    ensures Names(decoders[..0]) == []
  {
  }

  lemma NamesStep(decoders: seq<Decoder>, k: nat)
    requires k < |decoders|
    ensures Names(decoders[..k + 1]) == Names(decoders[..k]) + [decoders[k].name]
  {
  }

  /** `get_decoders` up to the presentation of its result. */
  method GetDecoders(loaded: seq<Decoder>, q: DecoderQuery) returns (listing: Listing<Decoder, string>)
    ensures listing.Error? <==> q.status.Some? && q.status.value !in ["all", "enabled", "disabled"]
    ensures listing.Error? ==> listing.code == 1202
    ensures listing.Found? ==> listing.items == Kept(loaded, d => DecoderMatches(d, q))
    ensures listing.Found? ==> Outstanding(listing.missing, q.names, Names(loaded))
  {
    hide DecoderMatches, Kept, InStep, Names, Outstanding, RemoveUpTo, Seen;
    var statuses := Statuses(q.status);
    if statuses.None? {
      return Error(1202);
    }
    ghost var passes := d => DecoderMatches(d, q);
    var decoders, missing := loaded, q.names;
    AtTheStart(loaded, passes, false);
    OutstandingAtTheStart(q.names);
    NamesOfNone(loaded);
    var k := 0;
    while k < |loaded|
      invariant 0 <= k <= |loaded|
      invariant InStep(decoders, loaded, loaded[k..], passes, false)
      invariant Outstanding(missing, q.names, Names(loaded[..k]))
      invariant forall name :: name in missing ==> name in q.names
    {
      var d := loaded[k];
      NamesStep(loaded, k);
      OutstandingStep(missing, q.names, Names(loaded[..k]), d.name);
      ghost var before, visited := missing, decoders;
      ghost var n;
      decoders, missing, n := ConsiderDecoder(d, decoders, missing, q, statuses.value);
      Visit(visited, loaded, k, n, passes, false);
      forall name | name in missing ensures name in q.names {
        SeenIsPart(before, d.name, name);
      }
      k := k + 1;
    }
    assert loaded[..k] == loaded;
    AtTheEnd(decoders, loaded, passes, false);
    listing := Found(decoders, missing);
  }

  // Rule and decoder files.

  datatype Entry = Entry(filename: string, dirname: string, status: string)

  datatype FileQuery = FileQuery(status: string, dirname: string, filename: string)

  predicate WrongStatus(e: Entry, q: FileQuery) {
    q.status != "" && q.status != "all" && q.status != e.status
  }

  predicate WrongDirname(e: Entry, q: FileQuery) {
    q.dirname != "" && q.dirname != e.dirname
  }

  predicate WrongFilename(e: Entry, q: FileQuery) {
    q.filename != "" && q.filename != e.filename
  }

  predicate Stays(e: Entry, q: FileQuery) {
    !WrongStatus(e, q) && !WrongDirname(e, q) && !WrongFilename(e, q)
  }

  /** An entry that a visit removes without looking, and then again. */
  predicate RemovedTwice(e: Entry, q: FileQuery) {
    WrongStatus(e, q) && (WrongDirname(e, q) || WrongFilename(e, q))
  }

  function Misfits(e: Entry, q: FileQuery): nat {
    (if WrongStatus(e, q) then 1 else 0) + (if WrongDirname(e, q) then 1 else 0)
        + (if WrongFilename(e, q) then 1 else 0)
  }

  /**
   How often a failing entry is in the working list (`c`), among the visited (`v`) and the unvisited entries
   (`u`).
   */
  ghost predicate CountsAgree(e: Entry, q: FileQuery, c: nat, v: nat, u: nat) {
    && c <= u
    && (WrongStatus(e, q) && (v == 0 || !RemovedTwice(e, q)) ==> c == u)
    && (RemovedTwice(e, q) && v >= 1 && u >= 1 ==> c < u)
    && (RemovedTwice(e, q) && v >= 2 ==> u >= 1)
  }

  ghost predicate Agree(data: seq<Entry>, listed: seq<Entry>, k: nat, q: FileQuery)
    requires k <= |listed|
  {
    && Kept(data, e => Stays(e, q)) == Kept(listed, e => Stays(e, q))
    && forall e :: !Stays(e, q) ==>
         CountsAgree(e, q, multiset(data)[e], multiset(listed[..k])[e], multiset(listed[k..])[e])
  }

  /** The parameters in turn for one entry; the first `remove` is not guarded. */
  method RemoveEntry(data: seq<Entry>, e: Entry, q: FileQuery) returns (left: Option<seq<Entry>>)
    ensures left.None? <==> WrongStatus(e, q) && e !in data
    ensures left.Some? ==> left.value == RemoveUpTo(data, e, Misfits(e, q))
  {
    var rest := data;
    NoRemoval(data, e);
    if WrongStatus(e, q) {
      if e !in rest {
        return None;
      }
      rest := RemoveFirst(rest, e);
      assert rest == RemoveUpTo(data, e, 1);
    }
    if WrongDirname(e, q) && e in rest {
      rest := RemoveFirst(rest, e);
    }
    assert rest == RemoveUpTo(data, e, (if WrongStatus(e, q) then 1 else 0) + (if WrongDirname(e, q) then 1 else 0));
    if WrongFilename(e, q) && e in rest {
      rest := RemoveFirst(rest, e);
    }
    left := Some(rest);
  }

  ghost predicate Doubled(listed: seq<Entry>, q: FileQuery) {
    exists e :: RemovedTwice(e, q) && multiset(listed)[e] >= 2
  }

  lemma AgreeAtTheStart(listed: seq<Entry>, q: FileQuery)
    ensures Agree(listed, listed, 0, q)
  {
    assert listed[0..] == listed;
  }

  lemma AgreeAtTheEnd(data: seq<Entry>, listed: seq<Entry>, q: FileQuery)
    requires Agree(data, listed, |listed|, q)
    ensures data == Kept(listed, e => Stays(e, q)) && !Doubled(listed, q)
  {
    assert listed[..|listed|] == listed;
    forall e | e in data ensures Stays(e, q) {
      assert multiset(data)[e] > 0;
    }
    KeptIsAll(data, e => Stays(e, q));
  }

  lemma AgreeStep(data: seq<Entry>, listed: seq<Entry>, k: nat, q: FileQuery)
    requires k < |listed| && Agree(data, listed, k, q)
    ensures WrongStatus(listed[k], q) && listed[k] !in data ==> Doubled(listed, q)
    ensures !WrongStatus(listed[k], q) || listed[k] in data ==>
              Agree(RemoveUpTo(data, listed[k], Misfits(listed[k], q)), listed, k + 1, q)
  {
    hide RemoveUpTo, Kept;
    var e, n := listed[k], Misfits(listed[k], q);
    assert listed[..k + 1] == listed[..k] + [e] && listed[k..] == [e] + listed[k + 1..]
        && listed == listed[..k] + listed[k..];
    assert e in data <==> multiset(data)[e] > 0;
    RemoveUpToTakes(data, e, n);
    if n > 0 {
      RemoveUpToKeeps(data, e, n, x => Stays(x, q));
    } else {
      NoRemoval(data, e);
    }
  }

  /** What the request asks for; the status `all` is every status. */
  ghost predicate EntryMatches(e: Entry, q: FileQuery) {
    && (q.status in {"", "all"} || e.status == q.status)
    && (q.dirname == "" || e.dirname == q.dirname)
    && (q.filename == "" || e.filename == q.filename)
  }

  /** Some entry is listed twice, has the wrong status, and is wrong in another way too. */
  ghost predicate Repeated(listed: seq<Entry>, q: FileQuery) {
    exists e :: e in listed && multiset(listed)[e] >= 2 && RepeatedMisfit(e, q)
  }

  ghost predicate RepeatedMisfit(e: Entry, q: FileQuery) {
    && q.status !in {"", "all", e.status}
    && (q.dirname !in {"", e.dirname} || q.filename !in {"", e.filename})
  }

  /** A listing of every status never raises. */
  lemma EveryStatusIsListed(listed: seq<Entry>, q: FileQuery, e: Entry)
    requires q.status == "" || q.status == "all"
    ensures !Repeated(listed, q)
    ensures EntryMatches(e, q) <==> q.dirname in {"", e.dirname} && q.filename in {"", e.filename}
  {
  }

  lemma InPlainWords(listed: seq<Entry>, q: FileQuery)
    ensures Doubled(listed, q) <==> Repeated(listed, q)
    ensures Kept(listed, e => Stays(e, q)) == Kept(listed, e => EntryMatches(e, q))
  {
    hide Kept;
    if Doubled(listed, q) {
      var e :| RemovedTwice(e, q) && multiset(listed)[e] >= 2;
      assert RepeatedMisfit(e, q);
    }
    if Repeated(listed, q) {
      var e :| e in listed && multiset(listed)[e] >= 2 && RepeatedMisfit(e, q);
      assert RemovedTwice(e, q);
    }
    KeptBySame(listed, e => Stays(e, q), e => EntryMatches(e, q));
  }

  lemma {:induction false} KeptBySame<T(!new)>(s: seq<T>, p: T -> bool, q: T -> bool)
    requires forall x :: p(x) <==> q(x)
    ensures Kept(s, p) == Kept(s, q)
  {
    if s != [] {
      KeptBySame(s[1..], p, q);
    }
  }

  /**
   `_remove_files`. It raises for some listings, though a listing where nothing is repeated is always
   filtered as it should.
   */
  method RemoveFiles(listed: seq<Entry>, q: FileQuery) returns (result: Option<seq<Entry>>)
    ensures result.None? <==> Repeated(listed, q)
    ensures result.Some? ==> result.value == Kept(listed, e => EntryMatches(e, q))
  {
    hide Agree, Kept, RemoveUpTo, EntryMatches, Stays, Repeated, RepeatedMisfit, Doubled, Misfits, WrongStatus;
    InPlainWords(listed, q);
    AgreeAtTheStart(listed, q);
    var data := listed;
    var k := 0;
    while k < |listed|
      invariant 0 <= k <= |listed| && Agree(data, listed, k, q)
    {
      AgreeStep(data, listed, k, q);
      var left := RemoveEntry(data, listed[k], q);
      if left.None? {
        return None;
      }
      data := left.value;
      k := k + 1;
    }
    AgreeAtTheEnd(data, listed, q);
    result := Some(data);
  }

  /** A file named in the ruleset section and found in one of its directories too is listed twice. */
  lemma RepeatedEntryRaises()
    ensures Repeated([Entry("a.xml", "etc", "enabled"), Entry("a.xml", "etc", "enabled")],
        FileQuery("disabled", "ruleset", ""))
  {
    var e := Entry("a.xml", "etc", "enabled");
    assert "enabled" != "disabled" && "etc" != "ruleset" by {
      assert |"enabled"| != |"disabled"| && |"etc"| != |"ruleset"|;
    }
    assert RepeatedMisfit(e, FileQuery("disabled", "ruleset", "")) && multiset([e, e])[e] >= 2;
  }
}
