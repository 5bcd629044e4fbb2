/**
 Events that the integrations put on the manager's queue: how the Python side escapes the location of
 the agent, and how analysisd takes location and message apart again.
 */
module QueueLocation {
  import opened Options
  import opened Strings

  /** `s.replace(old, new)` of Python. */
  function Replace(s: string, pattern: string, with: string): string
    requires pattern != ""
  {
    Join(Split(s, pattern), with)
  }

  /** The escaping in `send_event` and `send_msg`. */
  function EscapedTwice(location: string): string {
    Replace(Replace(location, "|", "||"), ":", "|:")
  }

  /** `wstr_escape(..., '|', ':')`, the escaping in the C programs, with room for the result. */
  function Escaped(location: string): string {
    if location == "" then ""
    else if location[0] == '|' then "||" + Escaped(location[1..])
    else if location[0] == ':' then "|:" + Escaped(location[1..])
    else [location[0]] + Escaped(location[1..])
  }

  /** `wstr_unescape(..., '|')` */
  function Unescaped(s: string): string {
    if s == "" then ""
    else if s[0] != '|' then [s[0]] + Unescaped(s[1..])
    else if |s| == 1 then "|"
    else if s[1] == '|' then "|" + Unescaped(s[2..])
    else Unescaped(s[1..])
  }

  /** `wstr_chr_escape(s, ':', '|')`: the first colon that is not escaped. */
  function FindColon(s: string, escaped: bool): Option<nat> {
    if s == "" then None
    else if !escaped && s[0] == ':' then Some(0)
    else match FindColon(s[1..], !escaped && s[0] == '|') case None => None case Some(i) => Some(i + 1)
  }

  lemma {:induction false} FindColonInRange(s: string, escaped: bool)
    ensures match FindColon(s, escaped) case None => true case Some(i) => i < |s| && s[i] == ':'
  {
    if s != "" && !(!escaped && s[0] == ':') {
      FindColonInRange(s[1..], !escaped && s[0] == '|');
    }
  }

  datatype Agent = Agent(id: string, name: string, ip: Option<string>)

  function Location(agent: Agent): string {
    "[" + agent.id + "] (" + agent.name + ") " + (if agent.ip.Some? then agent.ip.value else "any")
  }

  /** `send_event` and `send_msg`: what is written to the queue; `payload` is the JSON text of the event. */
  function Message(agent: Option<Agent>, integration: string, payload: string): string {
    if agent.None? || agent.value.id == "000" then "1:" + integration + ":" + payload
    else "1:" + EscapedTwice(Location(agent.value)) + "->" + integration + ":" + payload
  }

  /** The start of `OS_CleanMSG`: location and message, or `None` for a format error. */
  function CleanMessage(msg: string): Option<(string, string)>
    requires |msg| >= 2
  {
    FindColonInRange(msg[2..], false);
    match FindColon(msg[2..], false)
    case None => None
    case Some(i) => Some((Unescaped(msg[2..][..i]), msg[2..][i + 1..]))
  }

  /** Where analysisd says the event is from. */
  datatype Origin = Origin(agentId: string, hostname: string, location: string)

  /**
   `OS_CleanMSG`, once it has set the location: the agent's number up to the bracket, its name up to the
   parenthesis. `host` is the name that the log itself gives, or the manager's own. `None` is a format error.
   */
  function OriginOf(location: string, host: string): Option<Origin> {
    if location == "" || location[0] != '[' then Some(Origin("000", host, location))
    else
      match Find(location[1..], "]")
      case None => None
      case Some(i) =>
        var rest := location[1..][i..];
        var left := if |rest| > 1 then rest[2..] else "";
        Some(Origin(location[1..][..i], HostnameOf(left), left))
  }

  function HostnameOf(location: string): string {
    if location == "" || location[0] != '(' then ""
    else match Find(location[1..], ")") case None => "" case Some(i) => location[1..][..i]
  }

  /** A message as the manager takes it from its queue: where it is from, and its text. */
  function Received(msg: string, host: string): Option<(Origin, string)>
    requires |msg| >= 2
  {
    match CleanMessage(msg)
    case None => None
    case Some((location, payload)) =>
      match OriginOf(location, host) case None => None case Some(origin) => Some((origin, payload))
  }

  // The two passes are one.

  lemma FindOfCons(c: char, s: string, p: char)
    ensures Find([c] + s, [p]) ==
      if c == p then Some(0)
      else match Find(s, [p]) case None => None case Some(i) => Some(i + 1)
  {
    hide Find, FindFrom, OccursAt;
    var all := [c] + s;
    OccursOfChar(all, p);
    if c == p {
      FindIs(all, [p], 0);
    } else {
      FindIsFirst(s, [p]);
      OccursOfChar(s, p);
      match Find(s, [p])
      case Some(i) =>
        assert all[i + 1] == s[i];
        FindIs(all, [p], i + 1);
      case None =>
        NotFound(all, [p]);
    }
  }

  lemma OccursOfChar(s: string, p: char)
    ensures forall i :: OccursAt(s, [p], i) <==> 0 <= i < |s| && s[i] == p
  {
    forall i | 0 <= i < |s|
      ensures s[i..i + 1] == [s[i]]
    {
    }
  }

  lemma ReplaceOfCons(c: char, s: string, p: char, with: string)
    ensures Replace([c] + s, [p], with) == (if c == p then with else [c]) + Replace(s, [p], with)
  {
    var all := [c] + s;
    var pieces := Split(s, [p]);
    FindOfCons(c, s, p);
    if c == p {
      assert all[..0] == "" && all[1..] == s;
      assert Split(all, [p]) == [""] + pieces;
      assert ([""] + pieces)[1..] == pieces;
    } else {
      assert Split(all, [p]) == [[c] + pieces[0]] + pieces[1..] by {
        match Find(s, [p])
        case None =>
        case Some(i) => assert all[..i + 1] == [c] + s[..i] && all[i + 1 + 1..] == s[i + 1..];
      }
      JoinOfFirst([c], pieces, with);
    }
  }

  lemma JoinOfFirst(head: string, pieces: seq<string>, with: string)
    requires pieces != []
    ensures Join([head + pieces[0]] + pieces[1..], with) == head + Join(pieces, with)
  {
    var more := [head + pieces[0]] + pieces[1..];
    assert more[1..] == pieces[1..];
    if |pieces| > 1 {
      assert head + (pieces[0] + with + Join(pieces[1..], with)) == head + pieces[0] + with + Join(pieces[1..], with);
    }
  }

  lemma ReplaceOfEmpty(p: char, with: string)
    ensures Replace("", [p], with) == ""
  {
  }

  /** The two `replace` calls escape exactly as the C function does in one pass. */
  lemma {:induction false} TwoPassesAreOne(location: string)
    ensures EscapedTwice(location) == Escaped(location)
  {
    hide Replace;
    if location == "" {
      ReplaceOfEmpty('|', "||");
      ReplaceOfEmpty(':', "|:");
    } else {
      var c, rest := location[0], location[1..];
      var once := Replace(rest, "|", "||");
      assert location == [c] + rest;
      ReplaceOfCons(c, rest, '|', "||");
      if c == '|' {
        assert "||" + once == ['|'] + (['|'] + once);
        ReplaceOfCons('|', ['|'] + once, ':', "|:");
        ReplaceOfCons('|', once, ':', "|:");
      } else {
        ReplaceOfCons(c, once, ':', "|:");
      }
      TwoPassesAreOne(rest);
    }
  }

  lemma EscapedCharacters()
    ensures EscapedTwice("|") == "||" && EscapedTwice(":") == "|:" && EscapedTwice("x") == "x"
  {
    hide EscapedTwice;
    TwoPassesAreOne("|");
    TwoPassesAreOne(":");
    TwoPassesAreOne("x");
    assert "|"[1..] == "" && ":"[1..] == "" && "x"[1..] == "" && Escaped("") == "";
  }

  // Taking the message apart.

  predicate Plain(s: string) {
    '|' !in s && ':' !in s
  }

  lemma {:induction false} UnescapedOfPlain(s: string)
    requires Plain(s)
    ensures Unescaped(s) == s
  {
    if s != "" {
      assert s[0] in s;
      assert s == [s[0]] + s[1..];
      UnescapedOfPlain(s[1..]);
    }
  }

  lemma {:induction false} UnescapedOfEscaped(location: string, suffix: string)
    requires Plain(suffix)
    ensures Unescaped(Escaped(location) + suffix) == location + suffix
  {
    var s := Escaped(location) + suffix;
    if location == "" {
      UnescapedOfPlain(suffix);
      assert s == suffix && location + suffix == suffix;
    } else {
      var c, rest := location[0], Escaped(location[1..]) + suffix;
      UnescapedOfEscaped(location[1..], suffix);
      assert location + suffix == [c] + (location[1..] + suffix);
      if c == '|' {
        assert s[2..] == rest;
      } else if c == ':' {
        assert s[1..] == [':'] + rest;
        assert s[1..][1..] == rest;
      } else {
        assert s[1..] == rest;
      }
    }
  }

  /** A bar before anything but a bar is dropped, at the end of the text it stays. */
  lemma {:induction false} SingleBar(before: string, c: char, rest: string)
    requires '|' !in before && c != '|'
    ensures Unescaped(before + "|" + [c] + rest) == before + [c] + Unescaped(rest)
    ensures Unescaped(before + "|") == before + "|"
    decreases |before|
  {
    var s, t := before + "|" + [c] + rest, before + "|";
    if before == "" {
      assert s[1..] == [c] + rest && s[1..][1..] == rest;
    } else {
      assert s[0] == before[0] && before[0] in before;
      assert s[1..] == before[1..] + "|" + [c] + rest && t[1..] == before[1..] + "|";
      SingleBar(before[1..], c, rest);
    }
  }

  lemma {:induction false} FindColonAfterPlain(s: string, rest: string)
    requires Plain(s)
    ensures FindColon(s + ":" + rest, false) == Some(|s|)
  {
    var all := s + ":" + rest;
    if s != "" {
      assert s[0] in s && all[0] == s[0];
      assert all[1..] == s[1..] + ":" + rest;
      FindColonAfterPlain(s[1..], rest);
    }
  }

  function Later(found: Option<nat>, shift: nat): Option<nat> {
    match found case None => None case Some(i) => Some(i + shift)
  }

  lemma FindColonOfCons(c: char, rest: string, escaped: bool)
    ensures FindColon([c] + rest, escaped) ==
      if !escaped && c == ':' then Some(0) else Later(FindColon(rest, !escaped && c == '|'), 1)
  {
    assert ([c] + rest)[1..] == rest;
  }

  lemma {:induction false} FindColonAfterEscaped(location: string, rest: string)
    ensures FindColon(Escaped(location) + rest, false) == Later(FindColon(rest, false), |Escaped(location)|)
  {
    hide FindColon;
    var s := Escaped(location) + rest;
    if location == "" {
      assert s == rest;
    } else {
      var c, more := location[0], Escaped(location[1..]) + rest;
      FindColonAfterEscaped(location[1..], rest);
      if c == '|' || c == ':' {
        assert s == ['|'] + ([c] + more);
        FindColonOfCons('|', [c] + more, false);
      } else {
        assert s == [c] + more;
      }
      FindColonOfCons(c, more, c == '|' || c == ':');
    }
  }

  /** No colon of an escaped location is unescaped. */
  lemma EscapedHasNoColon(location: string)
    ensures FindColon(Escaped(location), false) == None
  {
    FindColonAfterEscaped(location, "");
    assert Escaped(location) + "" == Escaped(location);
  }

  /** Escaping loses nothing. */
  lemma EscapedIsInjective(a: string, b: string)
    requires EscapedTwice(a) == EscapedTwice(b)
    ensures a == b
  {
    TwoPassesAreOne(a);
    TwoPassesAreOne(b);
    UnescapedOfEscaped(a, "");
    UnescapedOfEscaped(b, "");
    assert Escaped(a) + "" == Escaped(a) && Escaped(b) + "" == Escaped(b);
    assert a + "" == a && b + "" == b;
  }

  /**
   Whatever the agent's id, name and address and whatever the payload contain, analysisd recovers the
   location followed by the name of the integration, and the payload.
   */
  lemma MessageIsReadBack(agent: Option<Agent>, integration: string, payload: string)
    requires Plain(integration)
    ensures CleanMessage(Message(agent, integration, payload)) ==
              Some((if agent.None? || agent.value.id == "000" then integration
                  else Location(agent.value) + "->" + integration, payload))
  {
    hide Location, EscapedTwice, Escaped, Unescaped, FindColon;
    var msg := Message(agent, integration, payload);
    if agent.None? || agent.value.id == "000" {
      assert msg[2..] == integration + ":" + payload;
      FindColonAfterPlain(integration, payload);
      UnescapedOfPlain(integration);
      assert msg[2..][..|integration|] == integration && msg[2..][|integration| + 1..] == payload;
    } else {
      var location, suffix := Location(agent.value), "->" + integration;
      var head := Escaped(location);
      TwoPassesAreOne(location);
      assert msg[2..] == head + (suffix + ":" + payload);
      FindColonAfterPlain(suffix, payload);
      FindColonAfterEscaped(location, suffix + ":" + payload);
      UnescapedOfEscaped(location, suffix);
      assert msg[2..][..|head| + |suffix|] == head + suffix && msg[2..][|head| + |suffix| + 1..] == payload;
      assert location + "->" + integration == location + suffix;
    }
  }

  /** Looking for a character that ends a part: it ends there exactly if the part does not have it. */
  lemma EndOfPart(part: string, c: char, rest: string)
    ensures var found := Find(part + [c] + rest, [c]);
            && found.Some?
            && found.value <= |part|
            && (part + [c] + rest)[..found.value] == part[..found.value]
            && (found.value == |part| <==> c !in part)
  {
    var s := part + [c] + rest;
    OccursOfChar(s, c);
    FindIsFirst(s, [c]);
    assert s[|part|] == c;
    assert OccursAt(s, [c], |part|);
    forall k | 0 <= k < |part| ensures s[k] == part[k] {
    }
    var i := Find(s, [c]).value;
    assert i <= |part| && s[i] == c;
    if k :| 0 <= k < |part| && part[k] == c {
      assert OccursAt(s, [c], k);
    }
  }

  lemma HostnameIsRead(name: string, tail: string)
    ensures HostnameOf("(" + name + ")" + tail) == name <==> ')' !in name
  {
    var left := "(" + name + ")" + tail;
    assert left[1..] == name + [')'] + tail;
    EndOfPart(name, ')', tail);
  }

  lemma NumberIsRead(id: string, left: string, host: string)
    ensures var origin := OriginOf("[" + id + "] " + left, host);
            && origin.Some?
            && (origin.value.agentId == id <==> ']' !in id)
            && (']' !in id ==> origin.value == Origin(id, HostnameOf(left), left))
  {
    hide HostnameOf;
    var location := "[" + id + "] " + left;
    assert location[1..] == id + [']'] + (" " + left);
    EndOfPart(id, ']', " " + left);
    if ']' !in id {
      var rest := location[1..][|id|..];
      assert rest == "] " + left && rest[2..] == left;
    }
  }

  lemma NoEnd(part: string, c: char)
    requires c !in part
    ensures Find(part, [c]) == None
  {
    OccursOfChar(part, c);
    NotFound(part, [c]);
  }

  lemma UnclosedNumber(id: string, host: string)
    requires ']' !in id
    ensures OriginOf("[" + id, host) == None
  {
    NoEnd(id, ']');
    assert ("[" + id)[1..] == id;
  }

  lemma OnlyNumber(id: string, host: string)
    requires ']' !in id
    ensures OriginOf("[" + id + "]", host) == Some(Origin(id, "", ""))
  {
    hide Find;
    var location := "[" + id + "]";
    EndOfPart(id, ']', "");
    assert location[1..] == id + [']'] + "";
    assert location[1..][|id|..] == "]" && location[1..][..|id|] == id;
  }

  lemma NoName(location: string)
    requires location == "" || location[0] != '(' || ')' !in location
    ensures HostnameOf(location) == ""
  {
    if location != "" && ')' !in location {
      assert location == [location[0]] + location[1..];
      NoEnd(location[1..], ')');
    }
  }

  /** Locations of another form: without the bracket it is an error, without the parentheses there is no name. */
  lemma OtherLocations(id: string, rest: string, host: string)
    requires ']' !in id
    ensures OriginOf("[" + id, host) == None
    ensures OriginOf("[" + id + "]", host) == Some(Origin(id, "", ""))
    ensures rest == "" || rest[0] != '(' || ')' !in rest ==>
              OriginOf("[" + id + "] " + rest, host) == Some(Origin(id, "", rest))
  {
    hide OriginOf, HostnameOf;
    UnclosedNumber(id, host);
    OnlyNumber(id, host);
    NumberIsRead(id, rest, host);
    if rest == "" || rest[0] != '(' || ')' !in rest {
      NoName(rest);
    }
  }

  /** A message without a second colon is a format error. */
  lemma OneColon(text: string)
    requires ':' !in text
    ensures CleanMessage("1:" + text) == None
  {
    assert ("1:" + text)[2..] == text;
    FindColonInRange(text, false);
  }

  /** What is left of the location when the agent's number has been taken off. */
  function Address(agent: Agent, rest: string): string {
    "(" + agent.name + ") " + (if agent.ip.Some? then agent.ip.value else "any") + rest
  }

  /** Number and name of an agent are told apart exactly if neither has the character that ends it. */
  lemma OriginIsRead(agent: Agent, rest: string, host: string)
    ensures OriginOf(Location(agent) + rest, host) == Some(Origin(agent.id, agent.name, Address(agent, rest))) <==>
              ']' !in agent.id && ')' !in agent.name
  {
    hide OriginOf, HostnameOf;
    var left, ip := Address(agent, rest), if agent.ip.Some? then agent.ip.value else "any";
    assert left == "(" + agent.name + ")" + (" " + ip + rest);
    assert Location(agent) + rest == "[" + agent.id + "] " + left;
    HostnameIsRead(agent.name, " " + ip + rest);
    NumberIsRead(agent.id, left, host);
  }

  /**
   The agent of a message: number, name and the rest of the location reach the manager exactly if there is no
   `]` in the number and no `)` in the name, and then so does the text.
   */
  lemma AgentIsRecovered(agent: Agent, integration: string, payload: string, host: string)
    requires Plain(integration) && agent.id != "000"
    ensures var ip := if agent.ip.Some? then agent.ip.value else "any";
            var left := "(" + agent.name + ") " + ip + "->" + integration;
            var msg := Message(Some(agent), integration, payload);
            && msg[..2] == "1:"
            && (Received(msg, host) == Some((Origin(agent.id, agent.name, left), payload)) <==>
                  ']' !in agent.id && ')' !in agent.name)
  {
    hide CleanMessage, OriginOf, EscapedTwice, Location;
    var ip, suffix := if agent.ip.Some? then agent.ip.value else "any", "->" + integration;
    MessageIsReadBack(Some(agent), integration, payload);
    assert Location(agent) + "->" + integration == Location(agent) + suffix;
    OriginIsRead(agent, suffix, host);
    assert "(" + agent.name + ") " + ip + "->" + integration == Address(agent, suffix);
  }

  /** Without an agent, or for the manager itself, the integration is the location. */
  lemma ManagerIsRecovered(agent: Option<Agent>, integration: string, payload: string, host: string)
    requires Plain(integration) && (agent.None? || agent.value.id == "000")
    requires integration == "" || integration[0] != '['
    ensures Message(agent, integration, payload) == "1:" + integration + ":" + payload
    ensures Received(Message(agent, integration, payload), host) == Some((Origin("000", host, integration), payload))
  {
    hide CleanMessage;
    MessageIsReadBack(agent, integration, payload);
  }
}
