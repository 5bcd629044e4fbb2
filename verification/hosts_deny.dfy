/** The active response that adds an address to hosts.deny (hosts.allow on FreeBSD) and takes it out again. */
module HostsDeny {
  import opened Sequences
  import opened Strings
  import opened CLibrary
  import opened HostsAccess

  /** `OS_MAXSTR - 25` */
  const BUFFER: nat := 65511

  function Rule(platform: Platform, ip: string): string {
    match platform
    case FreeBsd => "ALL : " + ip + " : deny"
    case OtherUnix => "ALL:" + ip
  }

  /** A source address short enough for its rule not to be truncated when it is printed. */
  predicate Address(ip: string) {
    ip != "" && '\n' !in ip && |ip| < 4000
  }

  /** What one `fgets` after another returns. */
  function Reads(s: string): seq<string>
    decreases |s|
  {
    if s == "" then [] else [Fgets(s, BUFFER)] + Reads(s[|Fgets(s, BUFFER)|..])
  }

  /** `strstr(line, ip) != NULL` */
  predicate Mentions(line: string, ip: string) {
    Find(line, ip).Some?
  }

  predicate AnyMentions(lines: seq<string>, ip: string) {
    exists k :: 0 <= k < |lines| && Mentions(lines[k], ip)
  }

  function Without(lines: seq<string>, ip: string): seq<string> {
    if lines == [] then []
    else (if Mentions(lines[0], ip) then [] else [lines[0]]) + Without(lines[1..], ip)
  }

  function Added(s: string, platform: Platform, ip: string): string {
    if AnyMentions(Reads(s), ip) then s else s + Rule(platform, ip) + "\n"
  }

  function Deleted(s: string, ip: string): string {
    Flat(Without(Reads(s), ip))
  }

  class HostsFile {
    var content: string

    constructor (content: string)
      ensures this.content == content
    {
      this.content := content;
    }

    /** The add command; `works` is whether the file could be opened and written. */
    method Add(platform: Platform, srcip: string, works: bool) returns (ok: bool)
      modifies this
      ensures content == if works then Added(old(content), platform, srcip) else old(content)
      ensures works ==> (ok <==> !AnyMentions(Reads(old(content)), srcip))
    {
      if !works {
        return false;
      }
      var rest := content;
      while rest != ""
        invariant content == old(content)
        invariant AnyMentions(Reads(content), srcip) <==> AnyMentions(Reads(rest), srcip)
        decreases |rest|
      {
        var line := Fgets(rest, BUFFER);
        MentionsOfCons(line, Reads(rest[|line|..]), srcip);
        if Find(line, srcip).Some? {
          return false;
        }
        rest := rest[|line|..];
      }
      content := content + Rule(platform, srcip) + "\n";
      ok := true;
    }

    /** The delete command; `works` is whether the temporary file could be written and moved over the old one. */
    method Delete(srcip: string, works: bool)
      modifies this
      ensures content == if works then Deleted(old(content), srcip) else old(content)
    {
      hide Reads, Without, LineLength, FindFrom, Deleted;
      DeletedOfEmpty(srcip);
      var temp, rest := "", content;
      while rest != ""
        invariant content == old(content)
        invariant Deleted(content, srcip) == temp + Deleted(rest, srcip)
        decreases |rest|
      {
        var line := Fgets(rest, BUFFER);
        DeletedUnfolds(rest, srcip);
        if Find(line, srcip).None? {
          assert temp + (line + Deleted(rest[|line|..], srcip)) == temp + line + Deleted(rest[|line|..], srcip);
          temp := temp + line;
        }
        rest := rest[|line|..];
      }
      if works {
        content := temp;
      }
    }
  }

  lemma MentionsOfCons(line: string, lines: seq<string>, ip: string)
    ensures AnyMentions([line] + lines, ip) <==> Mentions(line, ip) || AnyMentions(lines, ip)
  {
    var all := [line] + lines;
    if Mentions(line, ip) {
      assert Mentions(all[0], ip);
    } else if k :| 0 <= k < |lines| && Mentions(lines[k], ip) {
      assert Mentions(all[k + 1], ip);
    }
  }

  lemma DeletedUnfolds(s: string, ip: string)
    requires s != ""
    ensures var line := Fgets(s, BUFFER);
            Deleted(s, ip) == (if Mentions(line, ip) then "" else line) + Deleted(s[|line|..], ip)
  {
    var line := Fgets(s, BUFFER);
    var rest := Reads(s[|line|..]);
    assert Reads(s)[1..] == rest;
    assert Without(Reads(s), ip) == (if Mentions(line, ip) then [] else [line]) + Without(rest, ip);
    if Mentions(line, ip) {
      assert [] + Without(rest, ip) == Without(rest, ip);
    } else {
      assert ([line] + Without(rest, ip))[1..] == Without(rest, ip);
    }
  }

  lemma {:induction false} ReadsAppend(s: string, t: string)
    requires Complete(s, BUFFER)
    ensures Reads(s + t) == Reads(s) + Reads(t)
    decreases |s|
  {
    if s == "" {
      assert s + t == t;
    } else {
      hide Fgets;
      var line := Fgets(s, BUFFER);
      FgetsAppend(s, t, BUFFER);
      ReadsAppend(s[|line|..], t);
      assert Reads(s) + Reads(t) == [line] + (Reads(s[|line|..]) + Reads(t));
    }
  }

  lemma {:induction false} WithoutNone(lines: seq<string>, ip: string)
    requires !AnyMentions(lines, ip)
    ensures Without(lines, ip) == lines
  {
    if lines != [] {
      assert !Mentions(lines[0], ip);
      forall k | 0 <= k < |lines[1..]|
        ensures !Mentions(lines[1..][k], ip)
      {
        assert lines[1..][k] == lines[k + 1];
      }
      WithoutNone(lines[1..], ip);
      assert lines == [lines[0]] + lines[1..];
    }
  }

  lemma {:induction false} WithoutAppend(first: seq<string>, second: seq<string>, ip: string)
    ensures Without(first + second, ip) == Without(first, ip) + Without(second, ip)
  {
    if first == [] {
      assert first + second == second;
    } else {
      assert (first + second)[1..] == first[1..] + second;
      WithoutAppend(first[1..], second, ip);
    }
  }

  lemma FlatOfCons(line: string, lines: seq<string>)
    ensures Flat([line] + lines) == line + Flat(lines)
  {
    assert ([line] + lines)[1..] == lines;
  }

  lemma {:induction false} FlatOfReads(s: string)
    ensures Flat(Reads(s)) == s
    decreases |s|
  {
    hide Fgets, Flat;
    if s == "" {
      FlatOfNone();
    } else {
      var line := Fgets(s, BUFFER);
      FlatOfCons(line, Reads(s[|line|..]));
      FlatOfReads(s[|line|..]);
    }
  }

  lemma FlatOfNone()
    ensures Flat([]) == ""
  {
  }

  lemma RuleIsOneRead(platform: Platform, ip: string)
    requires Address(ip)
    ensures var line := Rule(platform, ip) + "\n";
            Reads(line) == [line] && Complete(line, BUFFER) && '\n' !in Rule(platform, ip)
  {
    var rule := Rule(platform, ip);
    assert '\n' !in rule;
    FgetsReadsLine(rule, "", BUFFER);
    assert rule + "\n" + "" == rule + "\n";
    assert (rule + "\n")[|rule| + 1..] == "";
  }

  lemma RuleMentionsItself(platform: Platform, ip: string)
    ensures Mentions(Rule(platform, ip) + "\n", ip)
  {
    var line := Rule(platform, ip) + "\n";
    var k := if platform.FreeBsd? then 6 else 4;
    assert line[k..k + |ip|] == ip;
    assert OccursAt(line, ip, k);
    FindIsFirst(line, ip);
  }

  /** The rule denies every service to the address, and to nobody else, exactly if the address has no colon. */
  lemma RuleDenies(platform: Platform, ip: string)
    ensures Denies(platform, Rule(platform, ip) + "\n") == [ip] <==> IsWord(ip)
  {
    hide Denies;
    var line := Rule(platform, ip) + "\n";
    if IsWord(ip) {
      match platform
      case FreeBsd =>
        assert line == "ALL : " + ip + " : deny\n";
        AllowLineWithDeny(ip);
      case OtherUnix => DenyLine(ip);
    } else if Denies(platform, line) == [ip] {
      assert ip in Denies(platform, line);
      DeniedIsWord(platform, line, ip);
    }
  }

  /** Adding to a file that nobody mentions, then deleting. */
  lemma AddThenDelete(s: string, platform: Platform, ip: string)
    requires Address(ip) && !AnyMentions(Reads(s), ip) && Complete(s, BUFFER)
    ensures Deleted(Added(s, platform, ip), ip) == s
  {
    var line := Rule(platform, ip) + "\n";
    assert s + Rule(platform, ip) + "\n" == s + line;
    ReadsAppend(s, line);
    RuleIsOneRead(platform, ip);
    RuleMentionsItself(platform, ip);
    WithoutAppend(Reads(s), [line], ip);
    WithoutNone(Reads(s), ip);
    assert Without([line], ip) == [];
    assert Reads(s) + [] == Reads(s);
    FlatOfReads(s);
  }

  lemma {:induction false} WithoutIsShorter(lines: seq<string>, ip: string)
    ensures |Flat(Without(lines, ip))| <= |Flat(lines)|
    ensures AnyMentions(lines, ip) && ip != "" ==> |Flat(Without(lines, ip))| < |Flat(lines)|
  {
    if lines != [] {
      var rest := Without(lines[1..], ip);
      WithoutIsShorter(lines[1..], ip);
      assert lines == [lines[0]] + lines[1..];
      MentionsOfCons(lines[0], lines[1..], ip);
      if Mentions(lines[0], ip) {
        FindIsFirst(lines[0], ip);
        assert [] + rest == rest;
      } else {
        assert ([lines[0]] + rest)[1..] == rest;
      }
    }
  }

  /** Behind an unfinished line the rule does not start a read of its own, and deleting it takes the line along. */
  lemma DeleteTakesPiece(piece: string, platform: Platform, ip: string)
    requires Address(ip) && piece != "" && '\n' !in piece && |piece| < BUFFER - 1
    ensures Deleted(piece + (Rule(platform, ip) + "\n"), ip) != piece
  {
    hide LineLength, Reads, Without;
    var line := Rule(platform, ip) + "\n";
    var all := piece + line;
    var first := Fgets(all, BUFFER);
    RuleIsOneRead(platform, ip);
    LineLengthStops(all, BUFFER - 1);
    assert |first| == BUFFER - 1 || first == all by {
      assert forall k :: 0 <= k < |all| - 1 ==> all[k] != '\n';
    }
    DeletedUnfolds(all, ip);
    var rest := all[|first|..];
    FlatOfReads(rest);
    WithoutIsShorter(Reads(rest), ip);
    assert |Deleted(rest, ip)| <= |rest|;
  }

  lemma {:induction false} DeleteAfterIncomplete(s: string, platform: Platform, ip: string)
    requires Address(ip) && !AnyMentions(Reads(s), ip) && !Complete(s, BUFFER)
    ensures Deleted(s + (Rule(platform, ip) + "\n"), ip) != s
    decreases |s|
  {
    hide LineLength, Without, Deleted, Rule, Mentions;
    var line, rule := Fgets(s, BUFFER), Rule(platform, ip) + "\n";
    var rest := s[|line|..];
    MentionsOfCons(line, Reads(rest), ip);
    LineLengthStops(s, BUFFER - 1);
    if Closed(line, BUFFER) {
      FgetsAppend(s, rule, BUFFER);
      DeletedUnfolds(s + rule, ip);
      DeleteAfterIncomplete(rest, platform, ip);
      assert s == line + rest;
      assert (line + Deleted(rest + rule, ip))[|line|..] == Deleted(rest + rule, ip);
    } else {
      assert line == s;
      assert forall k :: 0 <= k < |s| ==> s[k] != '\n';
      DeleteTakesPiece(s, platform, ip);
    }
  }

  /**
   Deleting an address right after adding it restores the file exactly when the file did not mention
   the address and ended where a read ends; in particular when it was empty or ended with a newline.
   */
  lemma DeleteUndoesAdd(s: string, platform: Platform, ip: string)
    requires Address(ip)
    ensures Deleted(Added(s, platform, ip), ip) == s <==> !AnyMentions(Reads(s), ip) && Complete(s, BUFFER)
  {
    if AnyMentions(Reads(s), ip) {
      WithoutIsShorter(Reads(s), ip);
      FlatOfReads(s);
    } else if Complete(s, BUFFER) {
      AddThenDelete(s, platform, ip);
    } else {
      assert s + Rule(platform, ip) + "\n" == s + (Rule(platform, ip) + "\n");
      DeleteAfterIncomplete(s, platform, ip);
    }
  }

  /** A rule added behind a line without a newline takes that line along when it is deleted. */
  lemma UnfinishedLineIsLost(platform: Platform)
    ensures Deleted(Added("ALL:1.1.1.1", platform, "2.2.2.2"), "2.2.2.2") != "ALL:1.1.1.1"
  {
    hide Reads, Deleted, Added, Mentions, Rule, LineLength;
    var s := "ALL:1.1.1.1";
    LineLengthStops(s, BUFFER - 1);
    var line := Fgets(s, BUFFER);
    assert line != "" && line[|line| - 1] == s[|line| - 1] != '\n';
    assert !Closed(line, BUFFER);
    DeleteUndoesAdd(s, platform, "2.2.2.2");
  }

  /** A second add changes nothing exactly when some read of the file, after the first, mentions the address. */
  lemma AddIsIdempotent(s: string, platform: Platform, ip: string)
    ensures Added(Added(s, platform, ip), platform, ip) == Added(s, platform, ip)
       <==> AnyMentions(Reads(Added(s, platform, ip)), ip)
  {
    hide Reads, AnyMentions, Rule;
    var once := Added(s, platform, ip);
    assert |once + Rule(platform, ip) + "\n"| > |once|;
  }

  /** It does when the first add found the rule a read of its own. */
  lemma CompleteFileMentions(s: string, platform: Platform, ip: string)
    requires Address(ip) && Complete(s, BUFFER)
    ensures AnyMentions(Reads(Added(s, platform, ip)), ip)
  {
    if !AnyMentions(Reads(s), ip) {
      var line := Rule(platform, ip) + "\n";
      assert s + Rule(platform, ip) + "\n" == s + line;
      ReadsAppend(s, line);
      RuleIsOneRead(platform, ip);
      RuleMentionsItself(platform, ip);
      assert Mentions((Reads(s) + [line])[|Reads(s)|], ip);
    }
  }

  /** And when the rule, behind an unfinished last line, still fits into one read with it. */
  lemma ShortLastLineMentions(head: string, line: string, platform: Platform, ip: string)
    requires Complete(head, BUFFER) && '\n' !in line && '\n' !in ip && |line| + |Rule(platform, ip)| + 1 < BUFFER
    ensures AnyMentions(Reads(Added(head + line, platform, ip)), ip)
  {
    hide LineLength, Mentions, Reads, Complete, AnyMentions, Rule;
    if !AnyMentions(Reads(head + line), ip) {
      var last := line + Rule(platform, ip);
      RuleIsOneLine(platform, ip);
      FgetsReadsLine(last, "", BUFFER);
      assert last + "\n" + "" == last + "\n";
      RuleOccurs(line, platform, ip);
      FirstReadMentions(last + "\n", ip);
      assert head + line + Rule(platform, ip) + "\n" == head + (last + "\n");
      ReadsAppend(head, last + "\n");
      MentionsOfAppend(Reads(head), Reads(last + "\n"), ip);
    }
  }

  /** But a line so long that a read ends inside of the address hides it: then a second add is not noticed. */
  lemma CutRuleIsAddedAgain()
    ensures var s := seq(65505, _ => '#');
        Added(Added(s, OtherUnix, "12"), OtherUnix, "12") != Added(s, OtherUnix, "12")
  {
    hide LineLength, Reads, AnyMentions;
    var s: string := seq(65505, _ => '#');
    assert |s| == 65505 && forall k :: 0 <= k < |s| ==> s[k] == '#';
    var all, first, last := s + "ALL:12\n", s + "ALL:1", "2\n";
    assert all == first + last;
    LineLengthStops(s, BUFFER - 1);
    OneRead(s);
    LongLine(all, BUFFER - 1);
    assert all[..BUFFER - 1] == first && all[BUFFER - 1..] == last;
    FgetsReadsLine("2", "", BUFFER);
    assert "2" + "\n" + "" == last;
    OneRead(last);
    TwoReads(all, first, last);
    NoTwelve(s);
    NoTwelve(first);
    NoTwelve(last);
    MentionsOfCons(s, [], "12");
    MentionsOfCons(first, [last], "12");
    MentionsOfCons(last, [], "12");
    assert [s] + [] == [s] && [first] + [last] == [first, last] && [last] + [] == [last];
    NobodyMentions("12");
    assert Rule(OtherUnix, "12") == "ALL:12" && s + "ALL:12" + "\n" == all;
    AddIsIdempotent(s, OtherUnix, "12");
  }

  lemma RuleIsOneLine(platform: Platform, ip: string)
    requires '\n' !in ip
    ensures '\n' !in Rule(platform, ip)
  {
  }

  lemma NobodyMentions(ip: string)
    ensures !AnyMentions([], ip)
  {
  }

  lemma OneRead(s: string)
    requires s != "" && Fgets(s, BUFFER) == s
    ensures Reads(s) == [s]
  {
    assert s[|s|..] == "";
  }

  lemma TwoReads(s: string, first: string, last: string)
    requires s == first + last && first != "" && Fgets(s, BUFFER) == first && Reads(last) == [last]
    ensures Reads(s) == [first, last]
  {
    assert s[|first|..] == last;
  }

  lemma NoTwelve(s: string)
    requires forall k :: 0 <= k < |s| - 1 ==> s[k] != '1' || s[k + 1] != '2'
    ensures !Mentions(s, "12")
  {
    FindIsFirst(s, "12");
    forall i ensures !OccursAt(s, "12", i) {
      if 0 <= i && i + 2 <= |s| {
        assert s[i..i + 2][0] == s[i] && s[i..i + 2][1] == s[i + 1];
      }
    }
  }

  lemma RuleOccurs(s: string, platform: Platform, ip: string)
    ensures Mentions(s + Rule(platform, ip) + "\n", ip)
  {
    var all := s + Rule(platform, ip) + "\n";
    var k := |s| + if platform.FreeBsd? then 6 else 4;
    assert all[k..k + |ip|] == ip;
    assert OccursAt(all, ip, k);
    FindIsFirst(all, ip);
  }

  lemma FirstReadMentions(s: string, ip: string)
    requires s != "" && Mentions(Fgets(s, BUFFER), ip)
    ensures AnyMentions(Reads(s), ip)
  {
    assert Mentions(Reads(s)[0], ip);
  }

  // Runs.

  datatype Command = Add(ip: string, works: bool) | Delete(ip: string, works: bool)

  function Step(s: string, platform: Platform, c: Command): string {
    if !c.works then s
    else match c case Add(ip, _) => Added(s, platform, ip) case Delete(ip, _) => Deleted(s, ip)
  }

  function Steps(s: string, platform: Platform, commands: seq<Command>): string
    decreases |commands|
  {
    if commands == [] then s else Steps(Step(s, platform, commands[0]), platform, commands[1..])
  }

  /** The addresses blocked after the commands, in order of addition. */
  function Blocked(blocked: seq<string>, commands: seq<Command>): seq<string>
    decreases |commands|
  {
    if commands == [] then blocked else Blocked(BlockedStep(blocked, commands[0]), commands[1..])
  }

  function BlockedStep(blocked: seq<string>, c: Command): seq<string> {
    if !c.works then blocked
    else match c
      case Add(ip, _) => if ip in blocked then blocked else blocked + [ip]
      case Delete(ip, _) => Minus(blocked, ip)
  }

  function Minus(ips: seq<string>, ip: string): (rest: seq<string>)
    ensures forall x :: x in rest <==> x in ips && x != ip
  {
    if ips == [] then []
    else
      assert ips == [ips[0]] + ips[1..];
      (if ips[0] == ip then [] else [ips[0]]) + Minus(ips[1..], ip)
  }

  function Rules(platform: Platform, ips: seq<string>): seq<string> {
    if ips == [] then [] else [Rule(platform, ips[0]) + "\n"] + Rules(platform, ips[1..])
  }

  lemma {:induction false} RulesAppend(platform: Platform, ips: seq<string>, ip: string)
    ensures Rules(platform, ips + [ip]) == Rules(platform, ips) + [Rule(platform, ip) + "\n"]
  {
    if ips == [] {
      assert (ips + [ip])[1..] == [];
    } else {
      assert (ips + [ip])[1..] == ips[1..] + [ip];
      RulesAppend(platform, ips[1..], ip);
    }
  }

  /** No address occurs in the rule of another, and the file does not mention any of them. */
  ghost predicate Unrelated(s: string, platform: Platform, ips: set<string>) {
    && (forall a :: a in ips ==> Address(a) && !AnyMentions(Reads(s), a))
    && (forall a, b :: a in ips && b in ips && a != b ==> !Mentions(Rule(platform, b) + "\n", a))
  }

  lemma {:induction false} RulesAreReads(platform: Platform, ips: seq<string>)
    requires forall k :: 0 <= k < |ips| ==> Address(ips[k])
    ensures Reads(Flat(Rules(platform, ips))) == Rules(platform, ips) && Complete(Flat(Rules(platform, ips)), BUFFER)
  {
    if ips != [] {
      var line, rest := Rule(platform, ips[0]) + "\n", Rules(platform, ips[1..]);
      assert Rules(platform, ips)[1..] == rest;
      RuleIsOneRead(platform, ips[0]);
      RulesAreReads(platform, ips[1..]);
      ReadsAppend(line, Flat(rest));
      CompleteAppend(line, Flat(rest), BUFFER);
    }
  }

  lemma {:induction false} WithoutRule(platform: Platform, ips: seq<string>, ip: string)
    requires forall k :: 0 <= k < |ips| ==> (Mentions(Rule(platform, ips[k]) + "\n", ip) <==> ips[k] == ip)
    ensures Without(Rules(platform, ips), ip) == Rules(platform, Minus(ips, ip))
    ensures AnyMentions(Rules(platform, ips), ip) <==> ip in ips
  {
    hide Mentions, Rule;
    if ips != [] {
      var line, rest := Rule(platform, ips[0]) + "\n", Rules(platform, ips[1..]);
      assert Rules(platform, ips)[1..] == rest;
      assert ips == [ips[0]] + ips[1..];
      assert Mentions(line, ip) <==> ips[0] == ip;
      WithoutRule(platform, ips[1..], ip);
      MentionsOfCons(line, rest, ip);
      var less := Minus(ips[1..], ip);
      if ips[0] == ip {
        assert Minus(ips, ip) == less;
      } else {
        assert Minus(ips, ip) == [ips[0]] + less && ([ips[0]] + less)[1..] == less;
      }
    }
  }

  /** The file of a run: the original text, then one rule per blocked address. */
  function Image(s: string, platform: Platform, blocked: seq<string>): string {
    s + Flat(Rules(platform, blocked))
  }

  lemma ReadsOfImage(s: string, platform: Platform, blocked: seq<string>)
    requires Complete(s, BUFFER) && forall k :: 0 <= k < |blocked| ==> Address(blocked[k])
    ensures Reads(Image(s, platform, blocked)) == Reads(s) + Rules(platform, blocked)
  {
    RulesAreReads(platform, blocked);
    ReadsAppend(s, Flat(Rules(platform, blocked)));
  }

  lemma MentionsOfAppend(first: seq<string>, second: seq<string>, ip: string)
    ensures AnyMentions(first + second, ip) <==> AnyMentions(first, ip) || AnyMentions(second, ip)
  {
    var all := first + second;
    if k :| 0 <= k < |first| && Mentions(first[k], ip) {
      assert Mentions(all[k], ip);
    } else if k :| 0 <= k < |second| && Mentions(second[k], ip) {
      assert Mentions(all[|first| + k], ip);
    }
  }

  lemma StepOfImage(s: string, platform: Platform, ips: set<string>, blocked: seq<string>, c: Command)
    requires Complete(s, BUFFER) && Unrelated(s, platform, ips) && c.ip in ips
    requires forall k :: 0 <= k < |blocked| ==> blocked[k] in ips
    ensures Step(Image(s, platform, blocked), platform, c) == Image(s, platform, BlockedStep(blocked, c))
  {
    hide Mentions, Rule, Complete, Reads;
    var ip, rules := c.ip, Rules(platform, blocked);
    RuleMentionsItself(platform, ip);
    ReadsOfImage(s, platform, blocked);
    WithoutRule(platform, blocked, ip);
    MentionsOfAppend(Reads(s), rules, ip);
    if c.works {
      match c
      case Add(_, _) =>
        if ip !in blocked {
          var line := Rule(platform, ip) + "\n";
          RulesAppend(platform, blocked, ip);
          FlatAppend(rules, [line]);
          assert Flat([line]) == line;
          assert s + (Flat(rules) + line) == s + Flat(rules) + Rule(platform, ip) + "\n";
        }
      case Delete(_, _) =>
        WithoutAppend(Reads(s), rules, ip);
        WithoutNone(Reads(s), ip);
        FlatAppend(Reads(s), Rules(platform, Minus(blocked, ip)));
        FlatOfReads(s);
    }
  }

  lemma {:induction false} StepsOfImage(s: string, platform: Platform, ips: set<string>, blocked: seq<string>,
      commands: seq<Command>)
    requires Complete(s, BUFFER) && Unrelated(s, platform, ips)
    requires forall k :: 0 <= k < |commands| ==> commands[k].ip in ips
    requires forall k :: 0 <= k < |blocked| ==> blocked[k] in ips
    ensures Steps(Image(s, platform, blocked), platform, commands) == Image(s, platform, Blocked(blocked, commands))
    decreases |commands|
  {
    hide Complete, Unrelated, Step, Image;
    if commands != [] {
      var next := BlockedStep(blocked, commands[0]);
      StepOfImage(s, platform, ips, blocked, commands[0]);
      forall k | 0 <= k < |next|
        ensures next[k] in ips
      {
        assert next[k] in next;
      }
      StepsOfImage(s, platform, ips, next, commands[1..]);
    }
  }

  /** Every run over unrelated addresses leaves the original text with one rule per blocked address after it. */
  lemma FileIsOriginalPlusBlocked(s: string, platform: Platform, commands: seq<Command>)
    requires Complete(s, BUFFER) && Unrelated(s, platform, set c | c in commands :: c.ip)
    ensures Steps(s, platform, commands) == s + Flat(Rules(platform, Blocked([], commands)))
  {
    StepsOfImage(s, platform, set c | c in commands :: c.ip, [], commands);
    assert Image(s, platform, []) == s;
  }

  /** The last working command for the address adds it. */
  ghost predicate LastAdded(commands: seq<Command>, ip: string) {
    exists k :: 0 <= k < |commands| && commands[k] == Add(ip, true)
                && forall j :: k < j < |commands| ==> commands[j] != Delete(ip, true)
  }

  /** Which addresses are blocked does not depend on the commands for others. */
  lemma {:induction false} BlockedIffLastAdded(commands: seq<Command>, ip: string)
    ensures ip in Blocked([], commands) <==> LastAdded(commands, ip)
    decreases |commands|
  {
    if commands != [] {
      var n := |commands| - 1;
      var before, c := commands[..n], commands[n];
      assert commands == before + [c];
      BlockedAppend([], before, c);
      BlockedIffLastAdded(before, ip);
      if c == Add(ip, true) {
        assert commands[n] == Add(ip, true);
      } else if c != Delete(ip, true) {
        if LastAdded(before, ip) {
          var k :| 0 <= k < n && before[k] == Add(ip, true) && forall j :: k < j < n ==> before[j] != Delete(ip, true);
          assert commands[k] == Add(ip, true);
        }
        if LastAdded(commands, ip) {
          var k :| 0 <= k <= n && commands[k] == Add(ip, true)
              && forall j :: k < j <= n ==> commands[j] != Delete(ip, true);
          assert before[k] == Add(ip, true);
          forall j | k < j < n ensures before[j] != Delete(ip, true) {
            assert before[j] == commands[j];
          }
        }
      } else {
        assert ip !in Blocked([], commands);
      }
    }
  }

  lemma {:induction false} BlockedAppend(blocked: seq<string>, commands: seq<Command>, c: Command)
    ensures Blocked(blocked, commands + [c]) == BlockedStep(Blocked(blocked, commands), c)
    decreases |commands|
  {
    if commands == [] {
      assert ([] + [c])[0] == c && ([] + [c])[1..] == [];
      assert Blocked(BlockedStep(blocked, c), []) == BlockedStep(blocked, c);
    } else {
      assert (commands + [c])[1..] == commands[1..] + [c];
      BlockedAppend(BlockedStep(blocked, commands[0]), commands[1..], c);
    }
  }

  /** The clients to which the lines of the file deny every service. */
  function DeniedBy(platform: Platform, lines: seq<string>): seq<string> {
    if lines == [] then [] else Denies(platform, lines[0]) + DeniedBy(platform, lines[1..])
  }

  lemma {:induction false} DeniedByAppend(platform: Platform, first: seq<string>, second: seq<string>)
    ensures DeniedBy(platform, first + second) == DeniedBy(platform, first) + DeniedBy(platform, second)
  {
    hide Denies;
    if first == [] {
      assert first + second == second;
    } else {
      assert (first + second)[1..] == first[1..] + second;
      DeniedByAppend(platform, first[1..], second);
    }
  }

  lemma {:induction false} RulesDeny(platform: Platform, ips: seq<string>)
    requires forall ip :: ip in ips ==> IsWord(ip)
    ensures DeniedBy(platform, Rules(platform, ips)) == ips
  {
    hide Denies, Rule;
    if ips != [] {
      assert ips == [ips[0]] + ips[1..];
      assert Rules(platform, ips)[1..] == Rules(platform, ips[1..]);
      RuleDenies(platform, ips[0]);
      RulesDeny(platform, ips[1..]);
    }
  }

  /** After any run the file denies what it denied before, and the blocked addresses. */
  lemma RunDenies(s: string, platform: Platform, commands: seq<Command>)
    requires Complete(s, BUFFER) && Unrelated(s, platform, set c | c in commands :: c.ip)
    requires forall c :: c in commands ==> IsWord(c.ip)
    ensures DeniedBy(platform, Reads(Steps(s, platform, commands))) ==
            DeniedBy(platform, Reads(s)) + Blocked([], commands)
  {
    hide Complete, Reads, Rules, Blocked, DeniedBy, Steps, IsWord, Mentions, Rule;
    var blocked := Blocked([], commands);
    forall ip | ip in blocked ensures IsWord(ip) && Address(ip) {
      BlockedIffLastAdded(commands, ip);
      var k :| 0 <= k < |commands| && commands[k] == Add(ip, true);
      assert commands[k] in commands;
    }
    FileIsOriginalPlusBlocked(s, platform, commands);
    ReadsOfImage(s, platform, blocked);
    DeniedByAppend(platform, Reads(s), Rules(platform, blocked));
    RulesDeny(platform, blocked);
  }

  /** Every run over the addresses leaves the original text with one rule per blocked address after it. */
  ghost predicate AlwaysAdditive(s: string, platform: Platform, ips: set<string>) {
    forall commands: seq<Command> :: (forall c :: c in commands ==> c.ip in ips) ==>
      Steps(s, platform, commands) == s + Flat(Rules(platform, Blocked([], commands)))
  }

  lemma OneCommand(s: string, platform: Platform, c: Command)
    ensures Steps(s, platform, [c]) == Step(s, platform, c) && Blocked([], [c]) == BlockedStep([], c)
  {
    assert [c][1..] == [];
    assert Steps(Step(s, platform, c), platform, []) == Step(s, platform, c);
    assert Blocked(BlockedStep([], c), []) == BlockedStep([], c);
  }

  lemma TwoCommands(s: string, platform: Platform, c: Command, d: Command)
    ensures Steps(s, platform, [c, d]) == Step(Step(s, platform, c), platform, d)
    ensures Blocked([], [c, d]) == BlockedStep(BlockedStep([], c), d)
  {
    assert [c, d][1..] == [d] && [d][1..] == [];
    assert Steps(Step(s, platform, c), platform, [d]) == Steps(Step(Step(s, platform, c), platform, d), platform, []);
    assert Blocked(BlockedStep([], c), [d]) == Blocked(BlockedStep(BlockedStep([], c), d), []);
  }

  lemma FlatOfRules(platform: Platform, a: string, b: string)
    ensures Flat(Rules(platform, [])) == "" && Flat(Rules(platform, [a])) == Rule(platform, a) + "\n"
    ensures Flat(Rules(platform, [a, b])) == (Rule(platform, a) + "\n") + (Rule(platform, b) + "\n")
  {
    assert [a][1..] == [] && [a, b][1..] == [b] && [b][1..] == [];
    assert Rules(platform, [b]) == [Rule(platform, b) + "\n"] && Rules(platform, [a]) == [Rule(platform, a) + "\n"];
    assert Rules(platform, [a, b]) == [Rule(platform, a) + "\n"] + Rules(platform, [b]);
    FlatOfOne(Rule(platform, a) + "\n");
    FlatOfOne(Rule(platform, b) + "\n");
    FlatAppend([Rule(platform, a) + "\n"], Rules(platform, [b]));
  }

  /** Adding an address, and deleting it again, tells what the file must be like. */
  lemma AddAndDeleteTell(s: string, platform: Platform, ips: set<string>, a: string)
    requires AlwaysAdditive(s, platform, ips) && a in ips && Address(a)
    ensures !AnyMentions(Reads(s), a) && Complete(s, BUFFER)
  {
    hide Reads, Complete, Rule, Deleted;
    var add, delete := Add(a, true), Delete(a, true);
    OneCommand(s, platform, add);
    TwoCommands(s, platform, add, delete);
    FlatOfRules(platform, a, a);
    assert [a][1..] == [] && Minus([a], a) == [] + Minus([], a);
    assert BlockedStep([], add) == [a] && BlockedStep([a], delete) == [];
    assert Steps(s, platform, [add]) == s + (Rule(platform, a) + "\n");
    assert Steps(s, platform, [add, delete]) == s + "" == s;
    DeleteUndoesAdd(s, platform, a);
  }

  /** Adding one address after another tells whether the rule of the first mentions the second. */
  lemma TwoAddsTell(s: string, platform: Platform, ips: set<string>, a: string, b: string)
    requires AlwaysAdditive(s, platform, ips) && a in ips && b in ips && a != b && Address(a) && Address(b)
    requires !AnyMentions(Reads(s), a) && !AnyMentions(Reads(s), b) && Complete(s, BUFFER)
    ensures !Mentions(Rule(platform, b) + "\n", a)
  {
    hide Reads, Complete, Rule, Mentions;
    var first, second := Add(b, true), Add(a, true);
    var line := Rule(platform, b) + "\n";
    TwoCommands(s, platform, first, second);
    FlatOfRules(platform, b, a);
    assert BlockedStep([b], second) == [b, a];
    assert s + Rule(platform, b) + "\n" == s + line;
    ReadsAppend(s, line);
    RuleIsOneRead(platform, b);
    assert Steps(s, platform, [first, second]) == Added(s + line, platform, a);
    MentionsOfAppend(Reads(s), [line], a);
    MentionsOfCons(line, [], a);
    assert [line] + [] == [line];
    assert |s + (line + (Rule(platform, a) + "\n"))| > |s + line|;
  }

  /**
   Exactly when the file mentions none of the addresses and all its reads are closed, and no rule mentions
   another address, does every run leave the original text with one rule per blocked address after it.
   */
  lemma AdditiveIffUnrelated(s: string, platform: Platform, ips: set<string>)
    requires ips != {} && forall a :: a in ips ==> Address(a)
    ensures AlwaysAdditive(s, platform, ips) <==> Complete(s, BUFFER) && Unrelated(s, platform, ips)
  {
    hide Reads, Complete, Rule, Mentions, Address;
    if AlwaysAdditive(s, platform, ips) {
      forall a | a in ips ensures !AnyMentions(Reads(s), a) && Complete(s, BUFFER) {
        AddAndDeleteTell(s, platform, ips, a);
      }
      forall a, b | a in ips && b in ips && a != b ensures !Mentions(Rule(platform, b) + "\n", a) {
        TwoAddsTell(s, platform, ips, a, b);
      }
      var a :| a in ips;
      assert Complete(s, BUFFER);
    }
    if Complete(s, BUFFER) && Unrelated(s, platform, ips) {
      forall commands: seq<Command> | forall c :: c in commands ==> c.ip in ips
        ensures Steps(s, platform, commands) == s + Flat(Rules(platform, Blocked([], commands)))
      {
        StepsOfImage(s, platform, ips, [], commands);
        assert Image(s, platform, []) == s;
      }
    }
  }

  lemma DeletedOfEmpty(ip: string)
    ensures Deleted("", ip) == ""
  {
  }

  /** An address that is part of another takes the other's rule with it. */
  lemma PrefixAddressesInterfere()
    ensures Deleted("ALL:10.0.0.12\n", "10.0.0.1") == ""
  {
    hide LineLength, Reads, Without, FindFrom;
    var s, ip := "ALL:10.0.0.12\n", "10.0.0.1";
    var rule := "ALL:10.0.0.12";
    assert s == rule + "\n" + "";
    FgetsReadsLine(rule, "", BUFFER);
    assert s[4..4 + |ip|] == ip;
    assert OccursAt(s, ip, 4);
    FindIsFirst(s, ip);
    assert Fgets(s, BUFFER) == s && s[|s|..] == "";
    assert Mentions(s, ip);
    DeletedUnfolds(s, ip);
    DeletedOfEmpty(ip);
  }
}
