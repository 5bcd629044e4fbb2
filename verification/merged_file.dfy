/**
 The merged file inside a WPK package: what the packaging tool writes and what `UnmergeFiles`,
 the program that unpacks it on the agent, reads back. One character stands for one byte.
 */
module MergedFile {
  import opened Options
  import opened Strings
  import opened CLibrary

  /** What a path leads to; directory entries are in the order the system lists them. */
  datatype Node = File(data: string) | Directory(listing: Listing) | Missing

  datatype Listing = Nothing | Item(name: string, node: Node, rest: Listing)

  datatype Entry = Entry(name: string, data: string)

  const BUFFER: nat := 2048

  function Header(e: Entry): string {
    "!" + Decimal(|e.data|) + " " + e.name
  }

  function Encoded(entries: seq<Entry>): string {
    if entries == [] then ""
    else Header(entries[0]) + "\n" + entries[0].data + Encoded(entries[1..])
  }

  function Opening(tag: string): string {
    if tag == "" then "" else "#" + tag + "\n"
  }

  /** The files below a path, depth first; `None` if something there is neither file nor directory. */
  function Walk(path: string, node: Node): Option<seq<Entry>>
    decreases node
  {
    match node
    case File(data) => Some([Entry(path, data)])
    case Directory(listing) => WalkAll(path, listing)
    case Missing => None
  }

  function WalkAll(path: string, listing: Listing): Option<seq<Entry>>
    decreases listing
  {
    match listing
    case Nothing => Some([])
    case Item(name, node, rest) =>
      match (Walk(path + "/" + name, node), WalkAll(path, rest))
      case (Some(first), Some(others)) => Some(first + others)
      case _ => None
  }

  function WalkSources(sources: seq<(string, Node)>): Option<seq<Entry>> {
    if sources == [] then Some([])
    else
      match (Walk(sources[0].0, sources[0].1), WalkSources(sources[1..]))
      case (Some(first), Some(others)) => Some(first + others)
      case _ => None
  }

  lemma {:induction false} EncodedAppend(first: seq<Entry>, second: seq<Entry>)
    ensures Encoded(first + second) == Encoded(first) + Encoded(second)
  {
    if first == [] {
      assert first + second == second;
    } else {
      assert (first + second)[1..] == first[1..] + second;
      EncodedAppend(first[1..], second);
    }
  }

  lemma EncodedTwice(before: string, first: seq<Entry>, second: seq<Entry>)
    ensures before + Encoded(first) + Encoded(second) == before + Encoded(first + second)
  {
    EncodedAppend(first, second);
  }

  /** The format: a line with the tag, and for each file a line with its size and name, then its bytes. */
  lemma Format(tag: string, first: Entry, rest: seq<Entry>)
    ensures Opening("") == "" && (tag != "" ==> Opening(tag) == "#" + tag + "\n")
    ensures Encoded([]) == ""
    ensures Encoded([first] + rest) ==
            "!" + Decimal(|first.data|) + " " + first.name + "\n" + first.data + Encoded(rest)
  {
    assert ([first] + rest)[1..] == rest;
  }

  // What a walk lists: the files of the tree, each at its address, which is a list of positions in directories.

  function Length(listing: Listing): nat {
    match listing case Nothing => 0 case Item(_, _, rest) => 1 + Length(rest)
  }

  function Nth(listing: Listing, i: nat): (string, Node)
    requires i < Length(listing)
  {
    if i == 0 then (listing.name, listing.node) else Nth(listing.rest, i - 1)
  }

  /** What is at the address. */
  function At(node: Node, address: seq<nat>): Option<Node>
    decreases |address|
  {
    if address == [] then Some(node)
    else if !node.Directory? || address[0] >= Length(node.listing) then None
    else At(Nth(node.listing, address[0]).1, address[1..])
  }

  /** The names on the way to the address. */
  function Names(node: Node, address: seq<nat>): seq<string>
    requires At(node, address).Some?
    decreases |address|
  {
    if address == [] then []
    else var (name, child) := Nth(node.listing, address[0]); [name] + Names(child, address[1..])
  }

  /** In the order of the listings, directory by directory. */
  predicate Before(a: seq<nat>, b: seq<nat>) {
    a != [] && b != [] && (a[0] < b[0] || (a[0] == b[0] && Before(a[1..], b[1..])))
  }

  ghost predicate InOrder(addresses: seq<seq<nat>>) {
    forall j, k :: 0 <= j < k < |addresses| ==> Before(addresses[j], addresses[k])
  }

  ghost predicate IsFile(node: Node, address: seq<nat>) {
    At(node, address).Some? && At(node, address).value.File?
  }

  ghost predicate IsMissing(node: Node, address: seq<nat>) {
    At(node, address) == Some(Missing)
  }

  /** The addresses of the files, each once and in order. */
  ghost predicate FileIndex(node: Node, addresses: seq<seq<nat>>) {
    InOrder(addresses) && forall address :: address in addresses <==> IsFile(node, address)
  }

  /** The entry for the file at the address, when the node itself is found under `path`. */
  ghost function EntryAt(path: string, node: Node, address: seq<nat>): Entry
    requires IsFile(node, address)
  {
    Entry(Join([path] + Names(node, address), "/"), At(node, address).value.data)
  }

  ghost predicate Describes(entries: seq<Entry>, path: string, node: Node, addresses: seq<seq<nat>>) {
    && |entries| == |addresses|
    && forall k :: 0 <= k < |addresses| ==>
         IsFile(node, addresses[k]) && entries[k] == EntryAt(path, node, addresses[k])
  }

  // The same for the rest of a listing, whose first position is `i`.

  ghost predicate FileIn(listing: Listing, i: nat, address: seq<nat>) {
    address != [] && i <= address[0] < i + Length(listing) && IsFile(Nth(listing, address[0] - i).1, address[1..])
  }

  ghost predicate MissingIn(listing: Listing, i: nat, address: seq<nat>) {
    address != [] && i <= address[0] < i + Length(listing) && IsMissing(Nth(listing, address[0] - i).1, address[1..])
  }

  ghost predicate AnyMissing(node: Node) {
    exists address :: IsMissing(node, address)
  }

  ghost predicate AnyMissingIn(listing: Listing, i: nat) {
    exists address :: MissingIn(listing, i, address)
  }

  ghost function NamesIn(listing: Listing, i: nat, address: seq<nat>): seq<string>
    requires FileIn(listing, i, address)
  {
    var (name, child) := Nth(listing, address[0] - i); [name] + Names(child, address[1..])
  }

  ghost function DataIn(listing: Listing, i: nat, address: seq<nat>): string
    requires FileIn(listing, i, address)
  {
    At(Nth(listing, address[0] - i).1, address[1..]).value.data
  }

  ghost function Under(i: nat, addresses: seq<seq<nat>>): (all: seq<seq<nat>>)
    ensures |all| == |addresses| && forall k :: 0 <= k < |all| ==> all[k] == [i] + addresses[k]
  {
    seq(|addresses|, k requires 0 <= k < |addresses| => [i] + addresses[k])
  }

  ghost function Addresses(node: Node): seq<seq<nat>>
    decreases node
  {
    match node
    case File(_) => [[]]
    case Directory(listing) => AddressesIn(listing, 0)
    case Missing => []
  }

  ghost function AddressesIn(listing: Listing, i: nat): seq<seq<nat>>
    decreases listing
  {
    match listing
    case Nothing => []
    case Item(_, child, rest) => Under(i, Addresses(child)) + AddressesIn(rest, i + 1)
  }

  lemma UnderIsInOrder(i: nat, addresses: seq<seq<nat>>)
    requires InOrder(addresses)
    ensures InOrder(Under(i, addresses))
  {
    var all := Under(i, addresses);
    forall j, k | 0 <= j < k < |all| ensures Before(all[j], all[k]) {
      assert all[j][1..] == addresses[j] && all[k][1..] == addresses[k];
    }
  }

  lemma UnderHas(i: nat, addresses: seq<seq<nat>>, address: seq<nat>)
    ensures address in Under(i, addresses) <==> address != [] && address[0] == i && address[1..] in addresses
  {
    var all := Under(i, addresses);
    if address in all {
      var k :| 0 <= k < |all| && all[k] == address;
      assert address[1..] == addresses[k];
    }
    if address != [] && address[0] == i && address[1..] in addresses {
      var k :| 0 <= k < |addresses| && addresses[k] == address[1..];
      assert all[k] == address;
    }
  }

  lemma {:induction false} IndexIsComplete(node: Node)
    ensures FileIndex(node, Addresses(node))
    decreases node
  {
    match node
    case File(_) =>
      assert forall address :: IsFile(node, address) <==> address == [];
    case Directory(listing) =>
      IndexInIsComplete(listing, 0);
      forall address ensures IsFile(node, address) <==> FileIn(listing, 0, address) {
      }
    case Missing =>
  }

  lemma {:induction false} IndexInIsComplete(listing: Listing, i: nat)
    ensures InOrder(AddressesIn(listing, i))
    ensures forall address :: address in AddressesIn(listing, i) <==> FileIn(listing, i, address)
    decreases listing
  {
    match listing
    case Nothing =>
    case Item(_, child, rest) =>
      IndexIsComplete(child);
      IndexInIsComplete(rest, i + 1);
      var first, others := Under(i, Addresses(child)), AddressesIn(rest, i + 1);
      UnderIsInOrder(i, Addresses(child));
      forall address ensures address in first + others <==> FileIn(listing, i, address) {
        UnderHas(i, Addresses(child), address);
        FileInStep(listing, i, address);
      }
      forall k | 0 <= k < |others| ensures others[k] != [] && others[k][0] > i {
        assert others[k] in others;
      }
      FirstBeforeOthers(first, others, i);
  }

  lemma FileInStep(listing: Listing, i: nat, address: seq<nat>)
    requires listing.Item?
    ensures FileIn(listing, i, address) <==>
              (address != [] && address[0] == i && IsFile(listing.node, address[1..]))
              || FileIn(listing.rest, i + 1, address)
    ensures MissingIn(listing, i, address) <==>
              (address != [] && address[0] == i && IsMissing(listing.node, address[1..]))
              || MissingIn(listing.rest, i + 1, address)
    ensures FileIn(listing.rest, i + 1, address) ==>
              NamesIn(listing, i, address) == NamesIn(listing.rest, i + 1, address)
              && DataIn(listing, i, address) == DataIn(listing.rest, i + 1, address)
  {
  }

  lemma FirstBeforeOthers(first: seq<seq<nat>>, others: seq<seq<nat>>, i: nat)
    requires InOrder(first) && InOrder(others)
    requires forall k :: 0 <= k < |first| ==> first[k] != [] && first[k][0] == i
    requires forall k :: 0 <= k < |others| ==> others[k] != [] && others[k][0] > i
    ensures InOrder(first + others)
  {
  }

  lemma JoinShift(path: string, name: string, names: seq<string>)
    ensures Join([path + "/" + name] + names, "/") == Join([path] + ([name] + names), "/")
  {
    assert ([path] + ([name] + names))[1..] == [name] + names;
    if names == [] {
      assert [name] + names == [name];
      assert [path + "/" + name] + names == [path + "/" + name];
    } else {
      assert ([name] + names)[1..] == names && ([path + "/" + name] + names)[1..] == names;
      assert path + "/" + (name + "/" + Join(names, "/")) == path + "/" + name + "/" + Join(names, "/");
    }
  }

  /** `entries` are the files of the rest of a listing, their names after `base`. */
  ghost predicate DescribesIn(entries: seq<Entry>, base: seq<string>, listing: Listing, i: nat) {
    var addresses := AddressesIn(listing, i);
    && |entries| == |addresses|
    && forall k :: 0 <= k < |addresses| ==>
         && FileIn(listing, i, addresses[k])
         && entries[k] == Entry(Join(base + NamesIn(listing, i, addresses[k]), "/"), DataIn(listing, i, addresses[k]))
  }

  lemma {:induction false} WalkDescribes(path: string, node: Node)
    requires Walk(path, node).Some?
    ensures Describes(Walk(path, node).value, path, node, Addresses(node))
    decreases node
  {
    match node
    case File(data) =>
      assert [path] + [] == [path] && Join([path], "/") == path;
    case Directory(listing) =>
      WalkAllDescribes(path, listing, 0);
    case Missing =>
  }

  lemma {:induction false} WalkAllDescribes(path: string, listing: Listing, i: nat)
    requires WalkAll(path, listing).Some?
    ensures DescribesIn(WalkAll(path, listing).value, [path], listing, i)
    decreases listing
  {
    hide Addresses, Walk, FileIn, Describes;
    match listing
    case Nothing =>
    case Item(name, child, rest) =>
      WalkDescribes(path + "/" + name, child);
      WalkAllDescribes(path, rest, i + 1);
      ItemDescribes([path], path + "/" + name, Walk(path + "/" + name, child).value, WalkAll(path, rest).value, listing,
          i);
  }

  /** The first item, found under `path`, and then the rest. */
  lemma ItemDescribes(base: seq<string>, path: string, first: seq<Entry>, others: seq<Entry>, listing: Listing, i: nat)
    requires listing.Item? && Describes(first, path, listing.node, Addresses(listing.node))
    requires DescribesIn(others, base, listing.rest, i + 1)
    requires base == [] ==> path == listing.name
    requires base != [] ==> |base| == 1 && path == base[0] + "/" + listing.name
    ensures DescribesIn(first + others, base, listing, i)
  {
    hide Addresses;
    var name, child := listing.name, listing.node;
    var mine, theirs := Under(i, Addresses(child)), AddressesIn(listing.rest, i + 1);
    forall k | 0 <= k < |mine|
      ensures FileIn(listing, i, mine[k])
      ensures first[k] == Entry(Join(base + NamesIn(listing, i, mine[k]), "/"), DataIn(listing, i, mine[k]))
    {
      assert mine[k][1..] == Addresses(child)[k];
      FileInStep(listing, i, mine[k]);
      var names := Names(child, Addresses(child)[k]);
      assert NamesIn(listing, i, mine[k]) == [name] + names;
      if base == [] {
        assert [] + ([name] + names) == [path] + names;
      } else {
        JoinShift(base[0], name, names);
      }
    }
    forall k | 0 <= k < |theirs|
      ensures FileIn(listing, i, theirs[k])
      ensures others[k] == Entry(Join(base + NamesIn(listing, i, theirs[k]), "/"), DataIn(listing, i, theirs[k]))
    {
      FileInStep(listing, i, theirs[k]);
    }
  }

  lemma {:induction false} WalkFailsOnMissing(path: string, node: Node)
    ensures Walk(path, node).None? <==> AnyMissing(node)
    decreases node
  {
    match node
    case File(_) =>
    case Directory(listing) =>
      WalkAllFailsOnMissing(path, listing, 0);
      forall address ensures IsMissing(node, address) <==> MissingIn(listing, 0, address) {
      }
    case Missing =>
      assert IsMissing(node, []);
  }

  lemma {:induction false} WalkAllFailsOnMissing(path: string, listing: Listing, i: nat)
    ensures WalkAll(path, listing).None? <==> AnyMissingIn(listing, i)
    decreases listing
  {
    match listing
    case Nothing =>
    case Item(name, child, rest) =>
      WalkFailsOnMissing(path + "/" + name, child);
      WalkAllFailsOnMissing(path, rest, i + 1);
      ItemIsMissing(listing, i);
  }

  lemma ItemIsMissing(listing: Listing, i: nat)
    requires listing.Item?
    ensures AnyMissingIn(listing, i) <==> AnyMissing(listing.node) || AnyMissingIn(listing.rest, i + 1)
  {
    hide IsMissing;
    if address :| MissingIn(listing, i, address) {
      FileInStep(listing, i, address);
    }
    if address :| IsMissing(listing.node, address) {
      var longer := [i] + address;
      assert longer[1..] == address;
      FileInStep(listing, i, longer);
    }
    if AnyMissingIn(listing.rest, i + 1) {
      var next := i + 1;
      var address :| MissingIn(listing.rest, next, address);
      FileInStep(listing, i, address);
    }
  }

  /**
   A walk fails exactly when something in the tree is neither file nor directory. Otherwise it lists every
   file once, in the order of the listings, under the names on the way to it.
   */
  lemma WalkListsTheFiles(path: string, node: Node)
    ensures Walk(path, node).None? <==> AnyMissing(node)
    ensures Walk(path, node).Some? ==>
              exists addresses :: FileIndex(node, addresses) && Describes(Walk(path, node).value, path, node, addresses)
  {
    WalkFailsOnMissing(path, node);
    if Walk(path, node).Some? {
      IndexIsComplete(node);
      WalkDescribes(path, node);
    }
  }

  /** So an entry is in the list exactly when it is some file of the tree. */
  lemma ListedIffFile(path: string, node: Node, e: Entry)
    requires Walk(path, node).Some?
    ensures e in Walk(path, node).value <==>
              exists address :: IsFile(node, address) && e == EntryAt(path, node, address)
  {
    hide Walk, Addresses, IsFile;
    var entries, addresses := Walk(path, node).value, Addresses(node);
    IndexIsComplete(node);
    WalkDescribes(path, node);
    if e in entries {
      var k :| 0 <= k < |entries| && entries[k] == e;
      assert IsFile(node, addresses[k]) && e == EntryAt(path, node, addresses[k]);
    }
    if address :| IsFile(node, address) && e == EntryAt(path, node, address) {
      assert address in addresses;
      var k :| 0 <= k < |addresses| && addresses[k] == address;
      assert entries[k] == e;
    }
  }

  /** The sources of a package, as if they were the items of one directory without a name. */
  function Gathered(sources: seq<(string, Node)>): Listing {
    if sources == [] then Nothing else Item(sources[0].0, sources[0].1, Gathered(sources[1..]))
  }

  lemma {:induction false} SourcesDescribe(sources: seq<(string, Node)>, i: nat)
    ensures WalkSources(sources).None? <==> AnyMissingIn(Gathered(sources), i)
    ensures WalkSources(sources).Some? ==> DescribesIn(WalkSources(sources).value, [], Gathered(sources), i)
    decreases |sources|
  {
    hide Walk, Describes, DescribesIn, AnyMissing, AnyMissingIn, Addresses;
    if sources == [] {
      NothingIsGathered(i);
    } else {
      var (path, node) := sources[0];
      SourcesDescribe(sources[1..], i + 1);
      WalkFailsOnMissing(path, node);
      ItemIsMissing(Gathered(sources), i);
      if WalkSources(sources).Some? {
        WalkDescribes(path, node);
        ItemDescribes([], path, Walk(path, node).value, WalkSources(sources[1..]).value, Gathered(sources), i);
      }
    }
  }

  lemma NothingIsGathered(i: nat)
    ensures !AnyMissingIn(Nothing, i) && DescribesIn([], [], Nothing, i)
  {
  }

  ghost predicate SourceFiles(entries: seq<Entry>, sources: seq<(string, Node)>, addresses: seq<seq<nat>>) {
    var root := Directory(Gathered(sources));
    && FileIndex(root, addresses) && |entries| == |addresses|
    && forall k :: 0 <= k < |addresses| ==>
         && IsFile(root, addresses[k])
         && entries[k] == Entry(Join(Names(root, addresses[k]), "/"), At(root, addresses[k]).value.data)
  }

  /** What goes into a package: every file of every source once, source by source. */
  lemma PackageListsTheFiles(sources: seq<(string, Node)>)
    ensures WalkSources(sources).None? <==> AnyMissing(Directory(Gathered(sources)))
    ensures WalkSources(sources).Some? ==>
              exists addresses :: SourceFiles(WalkSources(sources).value, sources, addresses)
  {
    hide WalkSources, Gathered;
    var root := Directory(Gathered(sources));
    SourcesDescribe(sources, 0);
    IndexIsComplete(root);
    forall address ensures IsMissing(root, address) <==> MissingIn(Gathered(sources), 0, address) {
    }
    if WalkSources(sources).Some? {
      var addresses := AddressesIn(Gathered(sources), 0);
      assert addresses == Addresses(root);
      forall k | 0 <= k < |addresses|
        ensures IsFile(root, addresses[k])
        ensures Names(root, addresses[k]) == [] + NamesIn(Gathered(sources), 0, addresses[k])
        ensures At(root, addresses[k]).value.data == DataIn(Gathered(sources), 0, addresses[k])
      {
        assert FileIn(Gathered(sources), 0, addresses[k]);
      }
      assert SourceFiles(WalkSources(sources).value, sources, addresses);
    }
  }

  class Merged {
    var data: string

    /** `mergecreate` */
    constructor (tag: string)
      ensures data == Opening(tag)
    {
      data := if tag == "" then "" else "#" + tag + "\n";
    }

    /** `_mergeappend`; `ok` is false where it raises. */
    method Append(path: string, node: Node) returns (ok: bool)
      modifies this
      ensures old(data) <= data && (ok <==> Walk(path, node).Some?)
      ensures ok ==> data == old(data) + Encoded(Walk(path, node).value)
      decreases node
    {
      match node
      case File(content) =>
        var e := Entry(path, content);
        data := data + Header(e) + "\n" + content;
        assert [e][1..] == [];
        ok := true;
      case Directory(listing) =>
        ok := AppendAll(path, listing);
      case Missing =>
        ok := false;
    }

    method AppendAll(path: string, listing: Listing) returns (ok: bool)
      modifies this
      ensures old(data) <= data && (ok <==> WalkAll(path, listing).Some?)
      ensures ok ==> data == old(data) + Encoded(WalkAll(path, listing).value)
      decreases listing
    {
      match listing
      case Nothing =>
        ok := true;
      case Item(name, node, rest) =>
        hide Encoded;
        ghost var before := data;
        ok := Append(path + "/" + name, node);
        if ok {
          ok := AppendAll(path, rest);
          if ok {
            EncodedTwice(before, Walk(path + "/" + name, node).value, WalkAll(path, rest).value);
          }
        }
    }

    /** `mergeappend` */
    method MergeAppend(sources: seq<(string, Node)>) returns (ok: bool)
      modifies this
      ensures old(data) <= data && (ok <==> WalkSources(sources).Some?)
      ensures ok ==> data == old(data) + Encoded(WalkSources(sources).value)
    {
      if sources == [] {
        return true;
      }
      hide Encoded;
      ghost var before := data;
      ok := Append(sources[0].0, sources[0].1);
      if ok {
        ok := MergeAppend(sources[1..]);
        if ok {
          EncodedTwice(before, Walk(sources[0].0, sources[0].1).value, WalkSources(sources[1..]).value);
        }
      }
    }
  }

  // Reading it back.

  datatype Unmerged = Unmerged(ok: bool, entries: seq<Entry>)

  function Min(a: nat, b: nat): nat {
    if a < b then a else b
  }

  function Chomp(line: string): string {
    if line != "" && line[|line| - 1] == '\n' then line[..|line| - 1] else line
  }

  /** `UnmergeFiles`: lines up to the next header, then as many bytes as it announces. */
  function Unmerge(s: string): Unmerged
    decreases |s|
  {
    if s == "" then Unmerged(true, [])
    else
      var line := Fgets(s, BUFFER);
      var rest := s[|line|..];
      if line[0] != '!' then Unmerge(rest)
      else
        var size := Atol(line[1..], 0);
        var header := Chomp(line);
        match Find(header, " ")
        case None => Unmerge(rest).(ok := false)
        case Some(i) =>
          var n := Min(size, |rest|);
          var tail := Unmerge(rest[n..]);
          tail.(entries := [Entry(header[i + 1..], rest[..n])] + tail.entries)
  }

  /** The inner loop of `UnmergeFiles`, which copies the announced bytes in blocks of the buffer's size. */
  method ReadBlocks(source: string, size: nat) returns (data: string)
    ensures data == source[..Min(size, |source|)]
  {
    var block: nat, left: nat := size, 0;
    if size >= BUFFER {
      block, left := BUFFER, size - BUFFER;
    }
    data := "";
    while |data| < |source| && block > 0
      invariant |data| <= |source| && |data| <= size && data == source[..|data|]
      invariant |data| < |source| ==> |data| + block + left == size
      invariant block == 0 ==> left == 0
      decreases |source| - |data|
    {
      var n := Min(block, |source| - |data|);
      data := data + source[|data|..|data| + n];
      if left == 0 {
        break;
      }
      if left < BUFFER {
        block, left := left, 0;
      } else {
        block, left := BUFFER, left - BUFFER;
      }
    }
  }

  method UnmergeFiles(s: string) returns (ok: bool, entries: seq<Entry>)
    ensures Unmerged(ok, entries) == Unmerge(s)
  {
    hide Atol, Chomp, Find, Fgets;
    ok, entries := true, [];
    var stream := s;
    while stream != ""
      invariant Unmerge(s) == Unmerged(ok && Unmerge(stream).ok, entries + Unmerge(stream).entries)
      decreases |stream|
    {
      ghost var before := stream;
      var line := Fgets(stream, BUFFER);
      stream := stream[|line|..];
      if line[0] != '!' {
        assert Unmerge(before) == Unmerge(stream);
        continue;
      }
      var size := Atol(line[1..], 0);
      var header := Chomp(line);
      var space := Find(header, " ");
      if space.None? {
        ok := false;
        assert Unmerge(before) == Unmerge(stream).(ok := false);
        continue;
      }
      var data := ReadBlocks(stream, size);
      stream := stream[|data|..];
      var e := Entry(header[space.value + 1..], data);
      ghost var tail := Unmerge(stream);
      assert Unmerge(before) == tail.(entries := [e] + tail.entries);
      assert entries + ([e] + tail.entries) == entries + [e] + tail.entries;
      entries := entries + [e];
    }
  }

  /** The header of the entry is read back as one line. */
  predicate Readable(e: Entry) {
    '\n' !in e.name && |Header(e)| + 1 < BUFFER
  }

  lemma HeaderReadsBack(e: Entry, rest: string)
    requires Readable(e)
    ensures var s := Header(e) + "\n" + rest;
            && Fgets(s, BUFFER) == Header(e) + "\n" && s[|Header(e)| + 1..] == rest
            && Chomp(Header(e) + "\n") == Header(e)
            && Atol((Header(e) + "\n")[1..], 0) == |e.data|
            && Find(Header(e), " ") == Some(1 + |Decimal(|e.data|)|)
            && Header(e)[1 + |Decimal(|e.data|)| + 1..] == e.name
  {
    var digits := Decimal(|e.data|);
    assert '\n' !in Header(e) by {
      assert forall c :: c in digits ==> IsDigit(c);
    }
    FgetsReadsLine(Header(e), rest, BUFFER);
    AtolReadsDecimal(|e.data|, " " + e.name + "\n");
    assert (Header(e) + "\n")[1..] == digits + (" " + e.name + "\n");
    assert !Contains("!" + digits, " ") by {
      forall i
        ensures !OccursAt("!" + digits, " ", i)
      {
        if 0 <= i < |digits| + 1 {
          assert ("!" + digits)[i..i + 1][0] != ' ';
        }
      }
    }
    FindAfterPiece("!" + digits, " ", e.name);
    assert Header(e) == ("!" + digits) + " " + e.name;
  }

  lemma UnmergeStep(e: Entry, rest: string)
    requires Readable(e)
    ensures var tail := Unmerge(rest);
            Unmerge(Header(e) + "\n" + e.data + rest) == tail.(entries := [e] + tail.entries)
  {
    var s := Header(e) + "\n" + (e.data + rest);
    HeaderReadsBack(e, e.data + rest);
    assert (e.data + rest)[..|e.data|] == e.data && (e.data + rest)[|e.data|..] == rest;
    assert s == Header(e) + "\n" + e.data + rest;
    assert Fgets(s, BUFFER)[0] == '!';
  }

  /** A package that ends inside the data of an entry yields a shorter file, without an error. */
  lemma CutShort(e: Entry, n: nat)
    requires Readable(e) && n < |e.data|
    ensures Unmerge(Header(e) + "\n" + e.data[..n]) == Unmerged(true, [Entry(e.name, e.data[..n])])
  {
    var s, part := Header(e) + "\n" + e.data[..n], e.data[..n];
    HeaderReadsBack(e, part);
    assert Fgets(s, BUFFER)[0] == '!';
    assert part[..n] == part && part[n..] == "";
    assert Unmerge("") == Unmerged(true, []);
  }

  /** A header without a space is an error, but what follows it is still read. */
  lemma HeaderWithoutSpace(header: string, rest: string)
    requires '\n' !in header && ' ' !in header && |header| < 2046
    ensures Unmerge("!" + header + "\n" + rest) == Unmerge(rest).(ok := false)
  {
    var line := "!" + header;
    var s := line + "\n" + rest;
    FgetsReadsLine(line, rest, BUFFER);
    assert Fgets(s, BUFFER)[0] == '!';
    assert Chomp(line + "\n") == line;
    forall i ensures !OccursAt(line, " ", i) {
      if 0 <= i < |line| {
        assert line[i] != ' ';
        assert line[i..i + 1][0] == line[i];
      }
    }
    NotFound(line, " ");
  }

  predicate Newlines(data: string) {
    forall k :: 0 <= k < |data| ==> data[k] == '\n'
  }

  /**
   What it takes to survive the trip: a name of one line that fits the buffer. When the header fills
   the buffer to the last character, its newline is taken for data, which only newlines survive.
   */
  predicate Survives(e: Entry) {
    '\n' !in e.name && (|Header(e)| < 2047 || (|Header(e)| == 2047 && Newlines(e.data)))
  }

  lemma {:induction false} CutLine(s: string, room: nat, k: nat)
    requires k < |s| && s[k] == '\n'
    ensures LineLength(s, room) <= k + 1
  {
    if room > 0 && s[0] != '\n' {
      CutLine(s[1..], room - 1, k - 1);
    }
  }

  lemma HeaderHasSpace(e: Entry)
    ensures Find(Header(e), " ") == Some(1 + |Decimal(|e.data|)|)
    ensures Header(e)[1 + |Decimal(|e.data|)| + 1..] == e.name
    ensures forall k :: 0 <= k <= 1 + |Decimal(|e.data|)| ==> Header(e)[k] != '\n'
  {
    var digits := Decimal(|e.data|);
    forall i
      ensures !OccursAt("!" + digits, " ", i)
    {
      if 0 <= i < |digits| + 1 {
        assert ("!" + digits)[i..i + 1][0] != ' ';
      }
    }
    FindAfterPiece("!" + digits, " ", e.name);
    assert Header(e) == ("!" + digits) + " " + e.name;
  }

  /** A full buffer: the newline after the header becomes the first byte of the data. */
  lemma UnmergeFull(e: Entry, rest: string)
    requires '\n' !in e.name && |Header(e)| == 2047
    ensures var after := "\n" + e.data + rest;
            var tail := Unmerge(after[|e.data|..]);
            Unmerge(Header(e) + "\n" + e.data + rest)
                == tail.(entries := [Entry(e.name, after[..|e.data|])] + tail.entries)
  {
    hide Unmerge, LineLength, FindFrom, Atol, Decimal;
    HeaderHasSpace(e);
    var s, after := Header(e) + "\n" + e.data + rest, "\n" + e.data + rest;
    forall k | 0 <= k < BUFFER - 1
      ensures s[k] != '\n'
    {
      if k > 1 + |Decimal(|e.data|)| {
        assert s[k] == e.name[k - 2 - |Decimal(|e.data|)|];
      }
    }
    LongLine(s, BUFFER - 1);
    assert Fgets(s, BUFFER) == Header(e) && s[|Header(e)|..] == after;
    assert Chomp(Header(e)) == Header(e);
    AtolReadsDecimal(|e.data|, " " + e.name);
    assert Header(e)[1..] == Decimal(|e.data|) + (" " + e.name);
    UnmergeHeader(s, |e.data|, 1 + |Decimal(|e.data|)|);
  }

  /** What a header line makes of the rest. */
  lemma UnmergeHeader(s: string, size: nat, i: nat)
    requires s != "" && s[0] == '!'
    requires Atol(Fgets(s, BUFFER)[1..], 0) == size && Find(Chomp(Fgets(s, BUFFER)), " ") == Some(i)
    ensures var line := Fgets(s, BUFFER);
            var rest := s[|line|..];
            var n := Min(size, |rest|);
            Unmerge(s) == Unmerge(rest[n..]).(entries := [Entry(Chomp(line)[i + 1..], rest[..n])]
                + Unmerge(rest[n..]).entries)
  {
  }

  lemma FullIsExact(e: Entry, rest: string)
    requires '\n' !in e.name && |Header(e)| == 2047
    ensures var after := "\n" + e.data + rest; after[..|e.data|] == e.data <==> Newlines(e.data)
    ensures Newlines(e.data) ==> ("\n" + e.data + rest)[|e.data|..] == "\n" + rest
    ensures Newlines(e.data) ==> Unmerge("\n" + rest) == Unmerge(rest)
  {
    var after := "\n" + e.data + rest;
    if Newlines(e.data) {
      assert "\n" + e.data == e.data + "\n";
      assert after == e.data + ("\n" + rest);
      assert LineLength("\n" + rest, BUFFER - 1) == 1;
      assert Fgets("\n" + rest, BUFFER) == "\n" && ("\n" + rest)[1..] == rest;
    } else if after[..|e.data|] == e.data {
      Shifted(e.data, after);
    }
  }

  lemma Shifted(data: string, after: string)
    requires |after| > |data| && after[0] == '\n' && after[..|data|] == data
    requires forall k :: 0 <= k < |data| ==> after[k + 1] == data[k]
    ensures Newlines(data)
  {
    forall k | 0 <= k < |data|
      ensures data[k] == '\n'
    {
      AllNewlines(data, after, k);
    }
  }

  lemma {:induction false} AllNewlines(data: string, after: string, k: nat)
    requires k < |data| < |after| && after[0] == '\n' && after[..|data|] == data
    requires forall j :: 0 <= j < |data| ==> after[j + 1] == data[j]
    ensures data[k] == '\n'
  {
    assert data[k] == after[k];
    if k > 0 {
      AllNewlines(data, after, k - 1);
      assert after[k - 1 + 1] == data[k - 1];
    }
  }

  lemma LineIsCut(header: string, rest: string)
    requires '\n' in header || |header| + 1 > BUFFER
    ensures var line := Chomp(Fgets(header + rest, BUFFER));
            |line| < |header| && line == header[..|line|]
  {
    if '\n' in header {
      var k :| 0 <= k < |header| && header[k] == '\n';
      CutLine(header + rest, BUFFER - 1, k);
    }
  }

  /** A header cut short gives another name, or no entry and an error. */
  lemma UnmergeCut(e: Entry, rest: string)
    requires '\n' in e.name || |Header(e)| + 1 > BUFFER
    ensures var u := Unmerge(Header(e) + "\n" + e.data + rest);
            !u.ok || (u.entries != [] && |u.entries[0].name| < |e.name|)
  {
    var s := Header(e) + "\n" + e.data + rest;
    var header := Chomp(Fgets(s, BUFFER));
    HeaderHasSpace(e);
    assert '\n' in e.name ==> '\n' in Header(e);
    LineIsCut(Header(e), "\n" + e.data + rest);
    assert s == Header(e) + ("\n" + e.data + rest);
    assert Fgets(s, BUFFER)[0] == s[0] == '!';
    if Find(header, " ").Some? {
      SpaceOfPrefix(header, Header(e));
    }
  }

  lemma SpaceOfPrefix(prefix: string, s: string)
    requires prefix <= s && Find(prefix, " ").Some?
    ensures Find(s, " ") == Find(prefix, " ")
  {
    var i := Find(prefix, " ").value;
    FindIsFirst(prefix, " ");
    assert s[0..|prefix|] == prefix;
    forall j | 0 <= j <= i
      ensures OccursAt(s, " ", j) <==> OccursAt(prefix, " ", j)
    {
      OccursInSubstring(s, " ", 0, |prefix|, j);
    }
    FindIs(s, " ", i);
  }

  ghost predicate AllSurvive(entries: seq<Entry>) {
    forall k :: 0 <= k < |entries| ==> Survives(entries[k])
  }

  lemma AllSurviveStep(entries: seq<Entry>)
    requires entries != []
    ensures AllSurvive(entries) <==> Survives(entries[0]) && AllSurvive(entries[1..])
  {
    assert entries == [entries[0]] + entries[1..];
  }

  /** The merged body is read back exactly when every entry survives; then no byte is lost or left over. */
  lemma {:induction false} UnmergeIsExact(entries: seq<Entry>)
    ensures Unmerge(Encoded(entries)) == Unmerged(true, entries) <==> AllSurvive(entries)
  {
    hide Survives, AllSurvive, Header, Unmerge;
    if entries == [] {
      NothingToRead();
    } else {
      var e, rest := entries[0], Encoded(entries[1..]);
      UnmergeIsExact(entries[1..]);
      UnmergeHead(e, rest);
      AllSurviveStep(entries);
      assert entries == [e] + entries[1..];
      assert ([e] + Unmerge(rest).entries)[1..] == Unmerge(rest).entries;
    }
  }

  lemma NothingToRead()
    ensures Encoded([]) == "" && Unmerge("") == Unmerged(true, []) && AllSurvive([])
  {
  }

  lemma UnmergeHead(e: Entry, rest: string)
    ensures var u, tail := Unmerge(Header(e) + "\n" + e.data + rest), Unmerge(rest);
            if Survives(e) then u == tail.(entries := [e] + tail.entries)
            else !u.ok || (u.entries != [] && u.entries[0] != e)
  {
    if '\n' in e.name || |Header(e)| + 1 > BUFFER {
      UnmergeCut(e, rest);
    } else if Readable(e) {
      UnmergeStep(e, rest);
    } else {
      UnmergeFull(e, rest);
      FullIsExact(e, rest);
    }
  }

  /** An entry whose name has two lines is lost. */
  lemma TwoLineNameIsLost(data: string)
    ensures var e := Entry("a\nb", data);
            !Survives(e) && Unmerge(Encoded([e])) != Unmerged(true, [e])
  {
    var e := Entry("a\nb", data);
    assert e.name[1] == '\n';
    UnmergeIsExact([e]);
    assert [e][0] == e;
  }

  // The tag.

  /** No read begins like a header. */
  predicate Skipped(s: string)
    decreases |s|
  {
    s == "" || (s[0] != '!' && Skipped(s[|Fgets(s, BUFFER)|..]))
  }

  lemma {:induction false} SkippedIsPassedOver(s: string, rest: string)
    requires Skipped(s) && Complete(s, BUFFER)
    ensures Unmerge(s + rest) == Unmerge(rest)
    decreases |s|
  {
    hide LineLength;
    if s == "" {
      assert s + rest == rest;
    } else {
      FgetsAppend(s, rest, BUFFER);
      SkippedIsPassedOver(s[|Fgets(s, BUFFER)|..], rest);
    }
  }

  lemma {:induction false} HeaderIsNoticed(s: string)
    requires !Skipped(s)
    ensures Unmerge(s) != Unmerged(true, [])
    decreases |s|
  {
    if s[0] != '!' {
      HeaderIsNoticed(s[|Fgets(s, BUFFER)|..]);
    }
  }

  /** Behind this tag, files that survive are read back. */
  ghost predicate TagIsHarmless(tag: string) {
    forall entries :: AllSurvive(entries) ==> Unmerge(Opening(tag) + Encoded(entries)) == Unmerged(true, entries)
  }

  /** A tag does no harm exactly when no read of its line, or lines, begins like a header. */
  lemma TagIsHarmlessIffSkipped(tag: string)
    ensures TagIsHarmless(tag) <==> Skipped(Opening(tag))
  {
    hide Skipped, Unmerge, Survives;
    NewlineEndedIsComplete(Opening(tag), BUFFER);
    if Skipped(Opening(tag)) {
      forall entries | AllSurvive(entries)
        ensures Unmerge(Opening(tag) + Encoded(entries)) == Unmerged(true, entries)
      {
        SkippedIsPassedOver(Opening(tag), Encoded(entries));
        UnmergeIsExact(entries);
      }
    } else {
      assert AllSurvive([]) && Encoded([]) == "" && Opening(tag) + "" == Opening(tag);
      HeaderIsNoticed(Opening(tag));
    }
  }

  /** In particular one line that fits the buffer. */
  lemma OneLineIsSkipped(tag: string)
    requires '\n' !in tag && |tag| + 2 < 2048
    ensures Skipped(Opening(tag))
  {
    if tag != "" {
      var line := "#" + tag + "\n";
      FgetsReadsLine("#" + tag, "", BUFFER);
      assert line + "" == line && line[|line|..] == "";
      assert Skipped("");
    }
  }

  /**
   A whole package body: behind a tag whose line is passed over, the agent recovers the files in the order
   in which they were walked exactly when each of them survives.
   */
  lemma PackageIsReadBack(tag: string, sources: seq<(string, Node)>)
    requires Skipped(Opening(tag)) && WalkSources(sources).Some?
    ensures var entries := WalkSources(sources).value;
            Unmerge(Opening(tag) + Encoded(entries)) == Unmerged(true, entries) <==> AllSurvive(entries)
  {
    var entries := WalkSources(sources).value;
    NewlineEndedIsComplete(Opening(tag), BUFFER);
    SkippedIsPassedOver(Opening(tag), Encoded(entries));
    UnmergeIsExact(entries);
  }
}
