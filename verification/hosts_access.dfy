/**
 How the TCP wrappers read a line of hosts.deny (hosts.allow on FreeBSD), after the manual pages hosts_access(5)
 and hosts_options(5): fields between colons, and in each field words between blanks and commas. The brackets that
 may protect the colons of an address, and which no rule of the active response has, are left out.
 */
module HostsAccess {
  import opened Options
  import opened Strings

  datatype Platform = FreeBsd | OtherUnix

  predicate Separates(c: char) {
    c == ' ' || c == '\t' || c == '\n' || c == '\r' || c == ','
  }

  function WordLength(s: string): (n: nat)
    ensures n <= |s| && (forall k :: 0 <= k < n ==> !Separates(s[k])) && (n < |s| ==> Separates(s[n]))
    ensures s != "" && !Separates(s[0]) ==> n > 0
  {
    if s == "" || Separates(s[0]) then 0 else 1 + WordLength(s[1..])
  }

  function Words(s: string): seq<string>
    decreases |s|
  {
    if s == "" then []
    else if Separates(s[0]) then Words(s[1..])
    else [s[..WordLength(s)]] + Words(s[WordLength(s)..])
  }

  /**
   The clients to which the line denies every service. In hosts.deny these are the words of the second field
   after an `ALL` in the first, in hosts.allow the third field must be the option `deny`.
   */
  function Denies(platform: Platform, line: string): seq<string> {
    var fields := Split(line, ":");
    if |fields| < 2 || Words(fields[0]) != ["ALL"] then []
    else match platform
      case FreeBsd => if |fields| == 3 && Words(fields[2]) == ["deny"] then Words(fields[1]) else []
      case OtherUnix => Words(fields[1])
  }

  /** A name that is one word of one field. */
  predicate IsWord(s: string) {
    s != "" && forall c :: c in s ==> c != ':' && !Separates(c)
  }

  lemma {:induction false} WordsAreParts(s: string, word: string)
    requires word in Words(s)
    ensures word != "" && forall c :: c in word ==> c in s && !Separates(c)
    decreases |s|
  {
    if Separates(s[0]) {
      WordsAreParts(s[1..], word);
    } else {
      var n := WordLength(s);
      if word != s[..n] {
        assert word in Words(s[n..]);
        WordsAreParts(s[n..], word);
      }
    }
  }

  /** One word between separators. */
  lemma {:induction false} OneWord(before: string, word: string, after: string)
    requires word != "" && forall c :: c in word ==> !Separates(c)
    requires forall c :: c in before + after ==> Separates(c)
    ensures Words(before + word + after) == [word]
    decreases |before|
  {
    var s := before + word + after;
    if before != "" {
      assert s[0] == before[0] && before[0] in before + after;
      assert s[1..] == before[1..] + word + after;
      forall c | c in before[1..] + after ensures Separates(c) {
        assert c in before + after;
      }
      OneWord(before[1..], word, after);
    } else {
      assert s == word + after && s[0] == word[0] && word[0] in word;
      var n := WordLength(s);
      forall k | 0 <= k < |word| ensures !Separates(s[k]) {
        assert s[k] == word[k] && word[k] in word;
      }
      if |word| < |s| {
        assert s[|word|] == after[0] && after[0] in before + after;
      }
      assert n == |word|;
      assert s[..n] == word && s[n..] == after;
      forall c | c in after ensures Separates(c) {
        assert c in before + after;
      }
      NoWords(after);
    }
  }

  lemma {:induction false} NoWords(s: string)
    requires forall c :: c in s ==> Separates(c)
    ensures Words(s) == []
  {
    if s != "" {
      assert s[0] in s;
      NoWords(s[1..]);
    }
  }

  lemma ColonIsFound(s: string)
    ensures Contains(s, ":") <==> ':' in s
  {
    if i :| OccursAt(s, ":", i) {
      assert s[i] == s[i..i + 1][0] == ':';
    }
    if i :| 0 <= i < |s| && s[i] == ':' {
      assert OccursAt(s, ":", i);
    }
  }

  /** No such line denies anything to a client with a colon or a separator in its name. */
  lemma DeniedIsWord(platform: Platform, line: string, client: string)
    requires client in Denies(platform, line)
    ensures IsWord(client)
  {
    var fields := Split(line, ":");
    SplitPiecesAreFree(line, ":");
    WordsAreParts(fields[1], client);
    ColonIsFound(fields[1]);
  }

  lemma FieldsOf(fields: seq<string>)
    requires fields != [] && forall k :: 0 <= k < |fields| ==> ':' !in fields[k]
    ensures Split(Join(fields, ":"), ":") == fields
  {
    forall k | 0 <= k < |fields| ensures !Contains(fields[k], ":") {
      ColonIsFound(fields[k]);
    }
    SplitOfJoin(fields, ":");
  }

  lemma TwoFields(a: string, b: string)
    requires ':' !in a && ':' !in b
    ensures Split(a + ":" + b, ":") == [a, b]
  {
    assert [a, b][1..] == [b];
    FieldsOf([a, b]);
  }

  lemma ThreeFields(a: string, b: string, c: string)
    requires ':' !in a && ':' !in b && ':' !in c
    ensures Split(a + ":" + b + ":" + c, ":") == [a, b, c]
  {
    JoinOfThree(a, b, c);
    FieldsOf([a, b, c]);
  }

  lemma JoinOfThree(a: string, b: string, c: string)
    ensures Join([a, b, c], ":") == a + ":" + b + ":" + c
  {
    JoinAppend([a, b], [c], ":");
    assert [a, b] + [c] == [a, b, c] && [a, b][1..] == [b];
  }

  /** A line of hosts.deny for one client. */
  lemma DenyLine(client: string)
    requires IsWord(client)
    ensures Denies(OtherUnix, "ALL:" + client + "\n") == [client]
  {
    hide Words, Split, Separates;
    var line := "ALL:" + client + "\n";
    assert line == "ALL" + ":" + (client + "\n");
    TwoFields("ALL", client + "\n");
    Keywords();
    WordOfField("", "ALL", "");
    WordOfField("", client, "\n");
    assert "" + "ALL" + "" == "ALL" && "" + client + "\n" == client + "\n";
  }

  /** A line of hosts.allow that denies everything to one client. */
  lemma AllowLineWithDeny(client: string)
    requires IsWord(client)
    ensures Denies(FreeBsd, "ALL : " + client + " : deny\n") == [client]
  {
    hide Words, Split, Separates;
    var line := "ALL : " + client + " : deny\n";
    assert line == "ALL " + ":" + (" " + client + " ") + ":" + " deny\n";
    ThreeFields("ALL ", " " + client + " ", " deny\n");
    Keywords();
    WordOfField("", "ALL", " ");
    WordOfField(" ", client, " ");
    WordOfField(" ", "deny", "\n");
    assert "" + "ALL" + " " == "ALL " && " " + "deny" + "\n" == " deny\n";
  }

  lemma Keywords()
    ensures IsWord("ALL") && IsWord("deny")
  {
  }

  lemma WordOfField(before: string, word: string, after: string)
    requires before in {"", " "} && after in {"", " ", "\n"} && IsWord(word)
    ensures Words(before + word + after) == [word]
  {
    forall c | c in before + after ensures Separates(c) {
      assert c == ' ' || c == '\n';
    }
    OneWord(before, word, after);
  }
}
