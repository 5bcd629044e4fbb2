/**
 The API configuration: user files are merged into the default configuration object in place, and
 the paths of the TLS files get a prefix.
 */
module ConfigMerge {
  import opened Options
  import Strings

  datatype Scalar = Text(s: string) | Number(n: int) | Flag(b: bool) | Items(items: seq<string>)

  datatype Conf = Leaf(value: Scalar) | Dict(entries: map<string, Conf>)

  const NOTHING: Conf := Dict(map[])

  /** `_update_default_config(d, u)` does not raise: it never assigns into something that is not a dictionary. */
  predicate Compatible(d: Conf, u: Conf) {
    || u.Leaf?
    || u == NOTHING
    || (d.Dict? && forall k :: k in u.entries && k in d.entries ==> Compatible(d.entries[k], u.entries[k]))
  }

  function Merge(d: Conf, u: Conf): Conf
    requires Compatible(d, u)
  {
    if u.Leaf? then u
    else if u == NOTHING then d
    else Dict(map k | k in d.entries.Keys + u.entries.Keys ::
                if k !in u.entries then d.entries[k]
                else if k in d.entries then Merge(d.entries[k], u.entries[k])
                else u.entries[k])
  }

  /** The loop of `_update_default_config`, on one dictionary and, through the recursive call, on those inside it. */
  method UpdateDefaultConfig(defaultConfig: Conf, userConfig: map<string, Conf>) returns (updated: Conf)
    requires Compatible(defaultConfig, Dict(userConfig))
    ensures updated == Merge(defaultConfig, Dict(userConfig))
    decreases Dict(userConfig)
  {
    updated := defaultConfig;
    var pending := userConfig.Keys;
    while pending != {}
      invariant pending <= userConfig.Keys
      invariant userConfig != map[] ==> defaultConfig.Dict?
      invariant defaultConfig.Dict? ==>
                  && updated.Dict?
                  && updated.entries.Keys == defaultConfig.entries.Keys + (userConfig.Keys - pending)
                  && (forall k :: k in updated.entries ==>
                        updated.entries[k] ==
                        if k in pending || k !in userConfig then defaultConfig.entries[k]
                        else if k in defaultConfig.entries then Merge(defaultConfig.entries[k], userConfig[k])
                        else userConfig[k])
      invariant userConfig == map[] ==> updated == defaultConfig
      decreases pending
    {
      var key :| key in pending;
      var value := userConfig[key];
      var merged := value;
      if value.Dict? {
        var current := if key in updated.entries then updated.entries[key] else NOTHING;
        IntoNothing(value);
        merged := UpdateDefaultConfig(current, value.entries);
      }
      updated := Dict(updated.entries[key := merged]);
      pending := pending - {key};
    }
  }

  lemma IntoNothing(u: Conf)
    ensures Compatible(NOTHING, u) && Merge(NOTHING, u) == u
  {
    if u.Dict? && u != NOTHING {
      assert Merge(NOTHING, u).entries == u.entries;
    }
  }

  // What a merge means, path by path.

  function LeafAt(c: Conf, path: seq<string>): Option<Scalar>
    decreases |path|
  {
    match c
    case Leaf(value) => if path == [] then Some(value) else None
    case Dict(entries) => if path != [] && path[0] in entries then LeafAt(entries[path[0]], path[1..]) else None
  }

  /** `c` has a leaf at the path or above it. */
  predicate Covers(c: Conf, path: seq<string>)
    decreases |path|
  {
    c.Leaf? || (path != [] && path[0] in c.entries && Covers(c.entries[path[0]], path[1..]))
  }

  /** At every path the user's leaf wins; where the user's file says nothing the default stays. */
  lemma {:induction false} MergeByPath(d: Conf, u: Conf, path: seq<string>)
    requires Compatible(d, u)
    ensures LeafAt(Merge(d, u), path) == if Covers(u, path) then LeafAt(u, path) else LeafAt(d, path)
    decreases |path|
  {
    if u.Dict? && u != NOTHING && path != [] && path[0] in u.entries {
      var k := path[0];
      if k in d.entries {
        MergeByPath(d.entries[k], u.entries[k], path[1..]);
      } else if !Covers(u.entries[k], path[1..]) {
        NoLeafBelowAbsent(u.entries[k], path[1..]);
      }
    }
  }

  lemma {:induction false} NoLeafBelowAbsent(u: Conf, path: seq<string>)
    requires !Covers(u, path)
    ensures LeafAt(u, path) == None
    decreases |path|
  {
    if path != [] && path[0] in u.entries {
      NoLeafBelowAbsent(u.entries[path[0]], path[1..]);
    }
  }

  function NodeAt(c: Conf, path: seq<string>): Option<Conf>
    decreases |path|
  {
    if path == [] then Some(c)
    else if c.Dict? && path[0] in c.entries then NodeAt(c.entries[path[0]], path[1..])
    else None
  }

  /** Something would have to be stored inside a value that is not a dictionary. */
  predicate ClashAt(d: Conf, u: Conf, path: seq<string>) {
    var into, what := NodeAt(d, path), NodeAt(u, path);
    into.Some? && into.value.Leaf? && what.Some? && what.value.Dict? && what.value.entries != map[]
  }

  /** The merge raises exactly when the user has a dictionary with something in it where the default has a value. */
  lemma CompatibleIffNoClash(d: Conf, u: Conf)
    ensures Compatible(d, u) <==> !exists path :: ClashAt(d, u, path)
  {
    if Compatible(d, u) {
      forall path ensures !ClashAt(d, u, path) {
        NoClash(d, u, path);
      }
    } else {
      var path := Clash(d, u);
    }
  }

  lemma {:induction false} NoClash(d: Conf, u: Conf, path: seq<string>)
    requires Compatible(d, u)
    ensures !ClashAt(d, u, path)
    decreases |path|
  {
    if path != [] && d.Dict? && path[0] in d.entries && u.Dict? && path[0] in u.entries {
      NoClash(d.entries[path[0]], u.entries[path[0]], path[1..]);
    }
  }

  lemma {:induction false} Clash(d: Conf, u: Conf) returns (path: seq<string>)
    requires !Compatible(d, u)
    ensures ClashAt(d, u, path)
    decreases u
  {
    path := [];
    if d.Dict? {
      var k :| k in u.entries && k in d.entries && !Compatible(d.entries[k], u.entries[k]);
      var rest := Clash(d.entries[k], u.entries[k]);
      path := [k] + rest;
      assert path[1..] == rest;
    }
  }

  /** Merging the same file again changes nothing. */
  lemma {:induction false} MergeIsIdempotent(d: Conf, u: Conf)
    requires Compatible(d, u)
    ensures Compatible(Merge(d, u), u) && Merge(Merge(d, u), u) == Merge(d, u)
    decreases u
  {
    if u.Dict? && u != NOTHING {
      var m := Merge(d, u);
      forall k | k in u.entries
        ensures Compatible(m.entries[k], u.entries[k]) && Merge(m.entries[k], u.entries[k]) == m.entries[k]
      {
        if k in d.entries {
          MergeIsIdempotent(d.entries[k], u.entries[k]);
        } else {
          WithItself(u.entries[k]);
        }
      }
      assert Merge(m, u).entries == m.entries;
    }
  }

  lemma {:induction false} WithItself(u: Conf)
    ensures Compatible(u, u) && Merge(u, u) == u
    decreases u
  {
    if u.Dict? && u != NOTHING {
      forall k | k in u.entries
        ensures Compatible(u.entries[k], u.entries[k]) && Merge(u.entries[k], u.entries[k]) == u.entries[k]
      {
        WithItself(u.entries[k]);
      }
      assert Merge(u, u).entries == u.entries;
    }
  }

  /** Merging two files one after the other is merging their merge, and neither way raises if the first does not. */
  lemma {:induction false} MergeIsAssociative(d: Conf, u: Conf, v: Conf)
    requires Compatible(d, u) && Compatible(Merge(d, u), v)
    ensures Compatible(u, v) && Compatible(d, Merge(u, v))
    ensures Merge(Merge(d, u), v) == Merge(d, Merge(u, v))
    decreases u
  {
    if u == NOTHING {
      IntoNothing(v);
    } else if u.Dict? && v.Dict? && v != NOTHING {
      var m := Merge(d, u);
      forall k | k in u.entries && k in v.entries
        ensures Compatible(u.entries[k], v.entries[k])
        ensures k in d.entries ==> Compatible(d.entries[k], Merge(u.entries[k], v.entries[k]))
                                   && Merge(Merge(d.entries[k], u.entries[k]), v.entries[k])
                                       == Merge(d.entries[k], Merge(u.entries[k], v.entries[k]))
      {
        assert Compatible(m.entries[k], v.entries[k]);
        if k in d.entries {
          MergeIsAssociative(d.entries[k], u.entries[k], v.entries[k]);
        }
      }
      assert Compatible(u, v);
      var w := Merge(u, v);
      forall k | k in w.entries && k in d.entries
        ensures Compatible(d.entries[k], w.entries[k])
      {
        if k !in u.entries {
          assert Compatible(m.entries[k], v.entries[k]);
        }
      }
      assert Merge(m, v).entries == Merge(d, w).entries;
    }
  }

  // The path prefix.

  /** `os.path.join(prefix, path)` */
  function PathJoin(prefix: string, path: string): string {
    if path != "" && path[0] == '/' then path
    else if prefix == "" || prefix[|prefix| - 1] == '/' then prefix + path
    else prefix + "/" + path
  }

  ghost predicate StartsWithSlash(path: string) {
    path != "" && path[0] == '/'
  }

  /** The parts of a directory's name between its slashes, where a last slash makes no difference. */
  ghost function Components(directory: string): seq<string> {
    var parts := Strings.Split(directory, "/");
    if parts[|parts| - 1] == "" then parts[..|parts| - 1] else parts
  }

  /** `full` is where `path` leads from `directory`: there are slashes between all the parts of the two. */
  ghost predicate LeadsTo(directory: string, path: string, full: string) {
    if directory == "" || StartsWithSlash(path) then full == path
    else Strings.Split(full, "/") == Components(directory) + Strings.Split(path, "/")
  }

  lemma PathJoinLeadsTo(prefix: string, path: string)
    ensures LeadsTo(prefix, path, PathJoin(prefix, path))
  {
    if prefix != "" && !StartsWithSlash(path) {
      if prefix[|prefix| - 1] == '/' {
        var start := prefix[..|prefix| - 1];
        assert prefix == start + "/" + "" && prefix + path == start + "/" + path;
        SplitOfBoth(start, "");
        SplitOfBoth(start, path);
        Strings.NotFound("", "/");
        assert Strings.Split("", "/") == [""];
        assert Components(prefix) == Strings.Split(start, "/");
      } else {
        SplitOfBoth(prefix, path);
        LastPart(prefix);
      }
    }
  }

  lemma SplitOfBoth(a: string, b: string)
    ensures Strings.Split(a + "/" + b, "/") == Strings.Split(a, "/") + Strings.Split(b, "/")
  {
    var first, second := Strings.Split(a, "/"), Strings.Split(b, "/");
    Strings.SplitPiecesAreFree(a, "/");
    Strings.SplitPiecesAreFree(b, "/");
    Strings.JoinOfSplit(a, "/");
    Strings.JoinOfSplit(b, "/");
    Strings.JoinAppend(first, second, "/");
    Strings.SplitOfJoin(first + second, "/");
  }

  lemma LastPart(directory: string)
    requires directory != "" && directory[|directory| - 1] != '/'
    ensures Components(directory) == Strings.Split(directory, "/")
  {
    hide Strings.Split, Strings.Join;
    Strings.JoinOfSplit(directory, "/");
    var parts := Strings.Split(directory, "/");
    if parts[|parts| - 1] == "" {
      JoinBeforeNothing(parts);
    }
  }

  /** A name whose last part is empty is empty or ends with a slash. */
  lemma JoinBeforeNothing(parts: seq<string>)
    requires parts != [] && parts[|parts| - 1] == ""
    ensures var name := Strings.Join(parts, "/"); name == "" || name[|name| - 1] == '/'
  {
    if |parts| > 1 {
      var before := parts[..|parts| - 1];
      assert parts == before + [""];
      Strings.JoinOfOne("", "/");
      Strings.JoinAppend(before, [""], "/");
    }
  }

  const SSL_FIELDS: set<string> := {"key", "cert", "ca"}

  function PrefixedLeaf(prefix: string, c: Conf): Conf {
    if c.Leaf? && c.value.Text? then Leaf(Text(PathJoin(prefix, c.value.s))) else c
  }

  function PrefixedSection(prefix: string, section: Conf): Conf {
    if section.Leaf? then section
    else Dict(map k | k in section.entries ::
        if k in SSL_FIELDS then PrefixedLeaf(prefix, section.entries[k]) else section.entries[k])
  }

  /** `append_bongosec_prefixes` with one prefix for the key, the certificate and the authority of section `https`. */
  function Prefixed(prefix: string, c: Conf): Conf {
    if c.Leaf? then c
    else Dict(map k | k in c.entries :: if k == "https" then PrefixedSection(prefix, c.entries[k]) else c.entries[k])
  }

  predicate Absolute(prefix: string) {
    prefix != "" && prefix[0] == '/'
  }

  lemma PrefixedLeafTwice(prefix: string, c: Conf)
    requires Absolute(prefix)
    ensures PrefixedLeaf(prefix, PrefixedLeaf(prefix, c)) == PrefixedLeaf(prefix, c)
  {
  }

  lemma PrefixedSectionTwice(prefix: string, c: Conf)
    requires Absolute(prefix)
    ensures PrefixedSection(prefix, PrefixedSection(prefix, c)) == PrefixedSection(prefix, c)
  {
    if c.Dict? {
      hide PrefixedLeaf;
      var once := PrefixedSection(prefix, c);
      forall k | k in c.entries
        ensures PrefixedLeaf(prefix, PrefixedLeaf(prefix, c.entries[k])) == PrefixedLeaf(prefix, c.entries[k])
      {
        PrefixedLeafTwice(prefix, c.entries[k]);
      }
      assert PrefixedSection(prefix, once).entries == once.entries;
    }
  }

  /** A path that has its prefix does not get it again. */
  lemma PrefixedTwice(prefix: string, c: Conf)
    requires Absolute(prefix)
    ensures Prefixed(prefix, Prefixed(prefix, c)) == Prefixed(prefix, c)
  {
    if c.Dict? {
      var once := Prefixed(prefix, c);
      if "https" in c.entries {
        PrefixedSectionTwice(prefix, c.entries["https"]);
      }
      assert Prefixed(prefix, once).entries == once.entries;
    }
  }

  lemma PrefixedLeafAt(prefix: string, c: Conf, path: seq<string>)
    ensures LeafAt(Prefixed(prefix, c), path) ==
      var leaf := LeafAt(c, path);
      if |path| == 2 && path[0] == "https" && path[1] in SSL_FIELDS && leaf.Some? && leaf.value.Text?
      then Some(Text(PathJoin(prefix, leaf.value.s))) else leaf
  {
    if c.Dict? && path != [] && path[0] in c.entries && path[0] == "https" {
      var section, rest := c.entries["https"], path[1..];
      if section.Dict? && rest != [] && rest[0] in section.entries {
        assert LeafAt(c, path) == LeafAt(section.entries[rest[0]], rest[1..]);
        assert LeafAt(Prefixed(prefix, c), path) == LeafAt(PrefixedSection(prefix, section), rest);
      }
    }
  }

  /** Exactly three values change: the paths of the key, the certificate and the authority lead on from the prefix. */
  lemma PrefixedByPath(prefix: string, c: Conf, path: seq<string>)
    ensures var before, after := LeafAt(c, path), LeafAt(Prefixed(prefix, c), path);
            if path in {["https", "key"], ["https", "cert"], ["https", "ca"]} && before.Some? && before.value.Text?
            then after.Some? && after.value.Text? && LeadsTo(prefix, before.value.s, after.value.s)
            else after == before
  {
    hide PathJoin, LeadsTo;
    var before := LeafAt(c, path);
    PrefixedLeafAt(prefix, c, path);
    assert |path| == 2 && path[0] == "https" && path[1] in SSL_FIELDS
      <==> path in {["https", "key"], ["https", "cert"], ["https", "ca"]} by {
      if |path| == 2 {
        assert path == [path[0], path[1]];
      }
    }
    if before.Some? && before.value.Text? {
      PathJoinLeadsTo(prefix, before.value.s);
    }
  }

  /** One place follows from a directory and a path, so that the parts fix the whole name. */
  lemma LeadsToOne(directory: string, path: string, a: string, b: string)
    requires LeadsTo(directory, path, a) && LeadsTo(directory, path, b)
    ensures a == b
  {
    Strings.JoinOfSplit(a, "/");
    Strings.JoinOfSplit(b, "/");
  }

  // Reading one file after another from the same default object.

  lemma SectionMerge(prefix: string, d: Conf, u: Conf)
    requires Absolute(prefix)
    ensures Compatible(PrefixedSection(prefix, d), u) <==> Compatible(d, u)
    ensures Compatible(d, u) ==>
              PrefixedSection(prefix, Merge(PrefixedSection(prefix, d), u)) == PrefixedSection(prefix, Merge(d, u))
  {
    var p := PrefixedSection(prefix, d);
    if u.Dict? && u != NOTHING && d.Dict? {
      forall k | k in u.entries && k in d.entries
        ensures Compatible(p.entries[k], u.entries[k]) <==> Compatible(d.entries[k], u.entries[k])
      {
      }
      assert Compatible(p, u) <==> Compatible(d, u);
      if Compatible(d, u) {
        hide PrefixedLeaf;
        var after, plain := Merge(p, u), Merge(d, u);
        forall k | k in plain.entries
          ensures PrefixedLeaf(prefix, after.entries[k]) == PrefixedLeaf(prefix, plain.entries[k])
          ensures k !in SSL_FIELDS ==> after.entries[k] == plain.entries[k]
        {
          LeafMerge(prefix, d, u, k);
        }
        assert PrefixedSection(prefix, after).entries == PrefixedSection(prefix, plain).entries;
      }
    } else if u == NOTHING {
      PrefixedSectionTwice(prefix, d);
    }
  }

  lemma LeafMerge(prefix: string, d: Conf, u: Conf, k: string)
    requires Absolute(prefix) && u.Dict? && u != NOTHING && d.Dict? && Compatible(d, u)
    requires Compatible(PrefixedSection(prefix, d), u) && k in Merge(d, u).entries
    ensures var after, plain := Merge(PrefixedSection(prefix, d), u).entries[k], Merge(d, u).entries[k];
            && PrefixedLeaf(prefix, after) == PrefixedLeaf(prefix, plain)
            && (k !in SSL_FIELDS ==> after == plain)
  {
    if k in d.entries {
      PrefixedLeafTwice(prefix, d.entries[k]);
    }
  }

  /** Prefixing before a merge makes no difference to prefixing after it. */
  lemma PrefixedMerge(prefix: string, d: Conf, u: Conf)
    requires Absolute(prefix)
    ensures Compatible(Prefixed(prefix, d), u) <==> Compatible(d, u)
    ensures Compatible(d, u) ==> Prefixed(prefix, Merge(Prefixed(prefix, d), u)) == Prefixed(prefix, Merge(d, u))
  {
    var p := Prefixed(prefix, d);
    if u.Dict? && u != NOTHING && d.Dict? {
      hide PrefixedSection;
      if "https" in d.entries && "https" in u.entries {
        SectionMerge(prefix, d.entries["https"], u.entries["https"]);
      } else if "https" in d.entries {
        PrefixedSectionTwice(prefix, d.entries["https"]);
      }
      assert Compatible(p, u) <==> Compatible(d, u);
      if Compatible(d, u) {
        assert Prefixed(prefix, Merge(p, u)).entries == Prefixed(prefix, Merge(d, u)).entries;
      }
    } else if u == NOTHING {
      PrefixedTwice(prefix, d);
    }
  }

  predicate AllCompatible(d: Conf, users: seq<Conf>)
    decreases |users|
  {
    users == [] || (Compatible(d, users[0]) && AllCompatible(Merge(d, users[0]), users[1..]))
  }

  function Fold(d: Conf, users: seq<Conf>): Conf
    requires AllCompatible(d, users)
    decreases |users|
  {
    if users == [] then d else Fold(Merge(d, users[0]), users[1..])
  }

  lemma {:induction false} FoldUpToPrefix(prefix: string, a: Conf, b: Conf, users: seq<Conf>)
    requires Absolute(prefix) && Prefixed(prefix, a) == Prefixed(prefix, b) && AllCompatible(a, users)
    ensures AllCompatible(b, users) && Prefixed(prefix, Fold(a, users)) == Prefixed(prefix, Fold(b, users))
    decreases |users|
  {
    if users != [] {
      PrefixedMerge(prefix, a, users[0]);
      PrefixedMerge(prefix, b, users[0]);
      FoldUpToPrefix(prefix, Merge(a, users[0]), Merge(b, users[0]), users[1..]);
    }
  }

  /** After several files, a path has the leaf of the last file that covers it, and the default only if none does. */
  lemma {:induction false} LastFileWins(d: Conf, users: seq<Conf>, path: seq<string>, last: int)
    requires AllCompatible(d, users) && -1 <= last < |users|
    requires last >= 0 ==> Covers(users[last], path)
    requires forall k :: last < k < |users| ==> !Covers(users[k], path)
    ensures LeafAt(Fold(d, users), path) == if last < 0 then LeafAt(d, path) else LeafAt(users[last], path)
    decreases |users|
  {
    if users != [] {
      MergeByPath(d, users[0], path);
      LastFileWins(Merge(d, users[0]), users[1..], path, if last <= 0 then -1 else last - 1);
    }
  }

  predicate SameLeaf(a: Conf, b: Conf, path: seq<string>) {
    LeafAt(a, path) == LeafAt(b, path)
  }

  ghost predicate SameLeaves(a: Conf, b: Conf) {
    forall path :: SameLeaf(a, b, path)
  }

  lemma {:induction false} FoldAppend(d: Conf, users: seq<Conf>, v: Conf)
    ensures AllCompatible(d, users + [v]) <==> AllCompatible(d, users) && Compatible(Fold(d, users), v)
    ensures AllCompatible(d, users + [v]) ==> Fold(d, users + [v]) == Merge(Fold(d, users), v)
    decreases |users|
  {
    hide Merge, Compatible;
    if users == [] {
      assert [] + [v] == [v] && [v][1..] == [];
      assert AllCompatible(d, [v]) <==> Compatible(d, v);
    } else {
      assert (users + [v])[1..] == users[1..] + [v];
      if Compatible(d, users[0]) {
        FoldAppend(Merge(d, users[0]), users[1..], v);
      }
    }
  }

  /** Where `v` is silent, the files before it come to what the defaults say, as far as the prefix lets one see. */
  predicate AddsNothingAt(prefix: string, d: Conf, users: seq<Conf>, v: Conf, path: seq<string>)
    requires AllCompatible(d, users)
  {
    !Covers(v, path) ==> SameLeaf(Prefixed(prefix, Fold(d, users)), Prefixed(prefix, d), path)
  }

  ghost predicate AddsNothing(prefix: string, d: Conf, users: seq<Conf>, v: Conf)
    requires AllCompatible(d, users)
  {
    forall path :: AddsNothingAt(prefix, d, users, v, path)
  }

  /**
   What reading `v` after other files returns has the values that reading `v` alone returns exactly when the
   files before it come to the values of the defaults wherever `v` is silent.
   */
  lemma OwnMergeIff(prefix: string, d: Conf, users: seq<Conf>, v: Conf)
    requires AllCompatible(d, users + [v]) && AllCompatible(d, users) && Compatible(d, v)
    ensures SameLeaves(Prefixed(prefix, Fold(d, users + [v])), Prefixed(prefix, Merge(d, v)))
       <==> AddsNothing(prefix, d, users, v)
  {
    hide Merge, Fold, Prefixed, SameLeaf, AddsNothingAt;
    var after, own := Prefixed(prefix, Fold(d, users + [v])), Prefixed(prefix, Merge(d, v));
    if SameLeaves(after, own) {
      forall path ensures AddsNothingAt(prefix, d, users, v, path) {
        OwnMergeAt(prefix, d, users, v, path);
      }
    }
    if AddsNothing(prefix, d, users, v) {
      forall path ensures SameLeaf(after, own, path) {
        OwnMergeAt(prefix, d, users, v, path);
      }
    }
  }

  lemma OwnMergeAt(prefix: string, d: Conf, users: seq<Conf>, v: Conf, path: seq<string>)
    requires AllCompatible(d, users + [v]) && AllCompatible(d, users) && Compatible(d, v)
    ensures SameLeaf(Prefixed(prefix, Fold(d, users + [v])), Prefixed(prefix, Merge(d, v)), path)
       <==> AddsNothingAt(prefix, d, users, v, path)
  {
    hide Merge, Fold, Prefixed, Covers, LeafAt;
    FoldAppend(d, users, v);
    var before := Fold(d, users);
    MergeByPath(before, v, path);
    MergeByPath(d, v, path);
    PrefixedLeafAt(prefix, Merge(before, v), path);
    PrefixedLeafAt(prefix, Merge(d, v), path);
    PrefixedLeafAt(prefix, before, path);
    PrefixedLeafAt(prefix, d, path);
  }

  /** With one file before it: what that file says, and `v` does not, the defaults say too, up to the prefix. */
  predicate RedundantAt(prefix: string, d: Conf, u: Conf, v: Conf, path: seq<string>) {
    Covers(u, path) && !Covers(v, path) ==> SameLeaf(Prefixed(prefix, u), Prefixed(prefix, d), path)
  }

  ghost predicate Redundant(prefix: string, d: Conf, u: Conf, v: Conf) {
    forall path :: RedundantAt(prefix, d, u, v, path)
  }

  lemma OwnMergeAfterOne(prefix: string, d: Conf, u: Conf, v: Conf)
    requires AllCompatible(d, [u, v]) && AllCompatible(d, [u]) && Compatible(d, v)
    ensures SameLeaves(Prefixed(prefix, Fold(d, [u, v])), Prefixed(prefix, Merge(d, v))) <==> Redundant(prefix, d, u, v)
  {
    hide Merge, Fold, Prefixed, SameLeaves, AddsNothingAt, RedundantAt;
    assert [u] + [v] == [u, v];
    OwnMergeIff(prefix, d, [u], v);
    if AddsNothing(prefix, d, [u], v) {
      forall path ensures RedundantAt(prefix, d, u, v, path) {
        RedundantIff(prefix, d, u, v, path);
      }
    }
    if Redundant(prefix, d, u, v) {
      forall path ensures AddsNothingAt(prefix, d, [u], v, path) {
        RedundantIff(prefix, d, u, v, path);
      }
    }
  }

  lemma RedundantIff(prefix: string, d: Conf, u: Conf, v: Conf, path: seq<string>)
    requires AllCompatible(d, [u])
    ensures AddsNothingAt(prefix, d, [u], v, path) <==> RedundantAt(prefix, d, u, v, path)
  {
    hide Merge, Prefixed, Covers, LeafAt;
    assert [u][1..] == [];
    assert Fold(d, [u]) == Fold(Merge(d, u), []) == Merge(d, u);
    MergeByPath(d, u, path);
    PrefixedLeafAt(prefix, Merge(d, u), path);
    PrefixedLeafAt(prefix, d, path);
    PrefixedLeafAt(prefix, u, path);
  }

  /** The defaults again, with the prefix written out, do no harm to the file that follows. */
  lemma FullPathIsRedundant(prefix: string, path: string)
    requires Absolute(prefix)
    ensures var d := Dict(map["https" := Dict(map["key" := Leaf(Text(path))])]);
            Redundant(prefix, d, Prefixed(prefix, d), NOTHING)
  {
    var d := Dict(map["https" := Dict(map["key" := Leaf(Text(path))])]);
    PrefixedTwice(prefix, d);
  }

  /** A value from the first file that the second does not mention is still there after the second. */
  lemma FirstFileStays(prefix: string, value: Scalar)
    ensures var u := Dict(map["port" := Leaf(value)]);
            && AllCompatible(NOTHING, [u, NOTHING])
            && LeafAt(Prefixed(prefix, Fold(NOTHING, [u, NOTHING])), ["port"]) == Some(value)
            && LeafAt(Prefixed(prefix, Merge(NOTHING, NOTHING)), ["port"]) == None
  {
    var u := Dict(map["port" := Leaf(value)]);
    IntoNothing(u);
    assert ["port"][1..] == [] && [u, NOTHING][1..] == [NOTHING] && [NOTHING][1..] == [];
    assert Fold(NOTHING, [u, NOTHING]) == Fold(Merge(NOTHING, u), [NOTHING]) == Fold(Merge(u, NOTHING), []) == u;
    PrefixedLeafAt(prefix, u, ["port"]);
    PrefixedLeafAt(prefix, NOTHING, ["port"]);
  }

  class Defaults {
    var conf: Conf

    constructor (conf: Conf)
      ensures this.conf == conf
    {
      this.conf := conf;
    }

    /**
     `read_yaml_config`, `user` being the validated content of the file, `None` when there is none.
     With a file the default object itself is filled, prefixed and returned; without one a copy is.
     */
    method ReadYamlConfig(user: Option<Conf>, prefix: string) returns (configuration: Conf)
      requires user.Some? ==> user.value.Dict? && Compatible(conf, user.value)
      modifies this
      ensures user.None? ==> conf == old(conf) && configuration == Prefixed(prefix, old(conf))
      ensures user.Some? ==> conf == configuration == Prefixed(prefix, Merge(old(conf), user.value))
    {
      if user.None? {
        configuration := AppendPrefixes(conf, prefix);
      } else {
        conf := UpdateDefaultConfig(conf, user.value.entries);
        conf := AppendPrefixes(conf, prefix);
        configuration := conf;
      }
    }

    /** Reading several files: each returns what all the files so far add up to, not its own merge with the defaults. */
    method ReadAll(users: seq<Conf>, prefix: string) returns (configuration: Conf)
      requires Absolute(prefix) && users != [] && AllCompatible(conf, users)
      requires forall k :: 0 <= k < |users| ==> users[k].Dict?
      modifies this
      ensures configuration == conf == Prefixed(prefix, Fold(old(conf), users))
      decreases |users|
    {
      ghost var merged := Merge(conf, users[0]);
      configuration := ReadYamlConfig(Some(users[0]), prefix);
      if |users| > 1 {
        PrefixedTwice(prefix, merged);
        FoldUpToPrefix(prefix, merged, conf, users[1..]);
        configuration := ReadAll(users[1..], prefix);
      }
    }
  }

  method AppendPrefixes(dictionary: Conf, prefix: string) returns (prefixed: Conf)
    ensures prefixed == Prefixed(prefix, dictionary)
  {
    prefixed := dictionary;
    if dictionary.Leaf? || "https" !in dictionary.entries || dictionary.entries["https"].Leaf? {
      if dictionary.Dict? {
        assert Prefixed(prefix, dictionary).entries == dictionary.entries;
      }
      return;
    }
    var section := dictionary.entries["https"].entries;
    ghost var original := section;
    var fields := ["key", "cert", "ca"];
    for n := 0 to |fields|
      invariant section.Keys == original.Keys
      invariant forall k :: k in original ==>
                  section[k] == if k in fields[..n] then PrefixedLeaf(prefix, original[k]) else original[k]
    {
      if fields[n] in section {
        section := section[fields[n] := PrefixedLeaf(prefix, section[fields[n]])];
      }
    }
    prefixed := Dict(dictionary.entries["https" := Dict(section)]);
    assert fields[..|fields|] == fields;
    assert section == PrefixedSection(prefix, Dict(original)).entries;
    assert prefixed.entries == Prefixed(prefix, dictionary).entries;
  }
}
