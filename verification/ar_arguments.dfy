/**
 Building the argument string and the key string of an active response in a buffer of fixed size, from a
 JSON array. A C string is what lies before the first NUL of the buffer.
 */
module ActiveResponseArguments {
  import opened Options
  import Strings

  const SIZE: nat := 4096

  const NUL: char := '\0'

  type CString = s: string | forall k :: 0 <= k < |s| ==> s[k] != NUL witness ""

  datatype Item = Text(value: CString) | Other

  ghost predicate Holds(a: array<char>, s: string)
    reads a
  {
    |s| < a.Length && a[..|s|] == s && a[|s|] == NUL && NUL !in s
  }

  method Strlen(a: array<char>, ghost s: string) returns (n: nat)
    requires Holds(a, s)
    ensures n == |s|
  {
    n := 0;
    while a[n] != NUL
      invariant n <= |s|
      decreases |s| - n
    {
      assert a[..|s|][n] == a[n];
      n := n + 1;
    }
  }

  /** Never writes outside of the array, or the text and its NUL would not have had room. */
  method Strcat(a: array<char>, ghost s: string, v: CString)
    requires Holds(a, s) && |s| + |v| < a.Length
    modifies a
    ensures Holds(a, s + v)
  {
    var n := Strlen(a, s);
    var k := 0;
    while k < |v|
      invariant 0 <= k <= |v|
      invariant a[..n] == s && a[n..n + k] == v[..k]
    {
      a[n + k] := v[k];
      k := k + 1;
    }
    a[n + k] := NUL;
    assert a[..n + k] == a[..n] + a[n..n + k] == s + v;
  }

  /** The string items, in order. */
  function Texts(items: seq<Item>): seq<string> {
    if items == [] then []
    else if items[0].Text? then [items[0].value] + Texts(items[1..])
    else Texts(items[1..])
  }

  lemma {:induction false} TextsOfPrefix(items: seq<Item>, k: nat)
    requires k < |items|
    ensures Texts(items[..k + 1]) == Texts(items[..k]) + if items[k].Text? then [items[k].value] else []
    ensures Texts(items[..k + 1]) <= Texts(items)
  {
    if k == 0 {
      assert items[..1][1..] == [] && items[..0] == [];
    } else {
      assert items[..k + 1][1..] == items[1..][..k] && items[..k][1..] == items[1..][..k - 1];
      TextsOfPrefix(items[1..], k - 1);
    }
  }

  function WithoutLeadingEmpty(texts: seq<string>): seq<string> {
    if texts != [] && texts[0] == "" then WithoutLeadingEmpty(texts[1..]) else texts
  }

  /** Arguments: a single space between two, none before the first that is not empty. */
  function Joined(texts: seq<string>): string {
    Strings.Join(WithoutLeadingEmpty(texts), " ")
  }

  /** Keys: a dash before each. */
  function Dashed(texts: seq<string>): string {
    if texts == [] then "" else "-" + texts[0] + Dashed(texts[1..])
  }

  lemma {:induction false} DashedAppend(texts: seq<string>, v: string)
    ensures Dashed(texts + [v]) == Dashed(texts) + "-" + v
  {
    if texts == [] {
      assert (texts + [v])[1..] == [];
    } else {
      assert (texts + [v])[1..] == texts[1..] + [v];
      DashedAppend(texts[1..], v);
    }
  }

  lemma JoinStarts(texts: seq<string>)
    requires texts != [] && texts[0] != ""
    ensures Strings.Join(texts, " ") != ""
  {
  }

  lemma {:induction false} WithoutLeadingEmptyAppend(texts: seq<string>, v: string)
    ensures WithoutLeadingEmpty(texts + [v]) ==
            if WithoutLeadingEmpty(texts) != [] then WithoutLeadingEmpty(texts) + [v] else if v == "" then [] else [v]
    ensures WithoutLeadingEmpty(texts) != [] ==> WithoutLeadingEmpty(texts)[0] != ""
  {
    if texts == [] {
      assert texts + [v] == [v] && [v][1..] == [];
    } else if texts[0] == "" {
      assert (texts + [v])[1..] == texts[1..] + [v];
      WithoutLeadingEmptyAppend(texts[1..], v);
    }
  }

  lemma JoinedAppend(texts: seq<string>, v: string)
    ensures Joined(texts + [v]) == if Joined(texts) == "" then v else Joined(texts) + " " + v
  {
    WithoutLeadingEmptyAppend(texts, v);
    var w := WithoutLeadingEmpty(texts);
    if w != [] {
      Strings.JoinAppend(w, [v], " ");
      Strings.JoinOfOne(v, " ");
      JoinStarts(w);
    }
  }

  /** The size test lets the first `n` texts through. */
  ghost predicate Admitted(texts: seq<string>, n: nat, show: seq<string> -> string) {
    n <= |texts| && forall j :: 0 <= j < n ==> |show(texts[..j])| + |texts[j]| + 2 <= SIZE
  }

  /** The longest prefix of the texts that passes the size test. */
  ghost predicate Longest(texts: seq<string>, n: nat, show: seq<string> -> string) {
    Admitted(texts, n, show) && !Admitted(texts, n + 1, show)
  }

  lemma AdmittedNext(texts: seq<string>, n: nat, show: seq<string> -> string)
    ensures n < |texts| && Admitted(texts, n, show) ==>
              (Admitted(texts, n + 1, show) <==> |show(texts[..n])| + |texts[n]| + 2 <= SIZE)
    ensures Admitted(texts, 0, show) && !Admitted(texts, |texts| + 1, show)
  {
  }

  lemma AdmittedLess(texts: seq<string>, m: nat, n: nat, show: seq<string> -> string)
    requires m <= n && Admitted(texts, n, show)
    ensures Admitted(texts, m, show)
  {
  }

  /** There is only one such prefix. */
  lemma LongestIsUnique(texts: seq<string>, m: nat, n: nat, show: seq<string> -> string)
    requires Longest(texts, m, show) && Longest(texts, n, show)
    ensures m == n
  {
    hide Admitted;
    if m < n {
      AdmittedLess(texts, m + 1, n, show);
    } else if n < m {
      AdmittedLess(texts, n + 1, m, show);
    }
  }

  method GetExtraArgs(items: seq<Item>) returns (args: Option<string>)
    ensures exists n: nat :: Longest(Texts(items), n, Joined)
              && args == if Joined(Texts(items)[..n]) == "" then None else Some(Joined(Texts(items)[..n]))
  {
    hide Joined, Texts, Admitted;
    ghost var texts := Texts(items);
    var buffer := new char[SIZE](i => NUL);
    ghost var s := "";
    ghost var n: nat := 0;
    JoinedOfNone(texts);
    AdmittedNext(texts, 0, Joined);
    NoTexts(items);
    var i := 0;
    while i < |items|
      invariant 0 <= i <= |items| && n == |Texts(items[..i])|
      invariant Texts(items[..i]) <= texts && Admitted(texts, n, Joined)
      invariant Holds(buffer, s) && s == Joined(texts[..n]) && |s| < SIZE
    {
      TextsOfPrefix(items, i);
      if items[i].Text? {
        var v := items[i].value;
        assert texts[n] == v && texts[..n + 1] == texts[..n] + [v];
        JoinedAppend(texts[..n], v);
        AdmittedNext(texts, n, Joined);
        var length := Strlen(buffer, s);
        if length + |v| + 2 > SIZE {
          break;
        }
        if buffer[0] != NUL {
          assert s != "";
          Strcat(buffer, s, " ");
          s := s + " ";
        }
        Strcat(buffer, s, v);
        s := s + v;
        n := n + 1;
      }
      i := i + 1;
    }
    assert i == |items| ==> items[..i] == items;
    assert buffer[0] != NUL <==> s != "" by {
      assert s != "" ==> buffer[..|s|][0] == s[0];
    }
    if buffer[0] != NUL {
      var length := Strlen(buffer, s);
      args := Some(buffer[..length]);
    } else {
      args := None;
    }
    assert Longest(texts, n, Joined);
  }

  method GetKeys(items: seq<Item>) returns (keys: Option<string>)
    ensures exists n: nat :: Longest(Texts(items), n, Dashed)
              && keys == if n == 0 then None else Some(Dashed(Texts(items)[..n]))
  {
    hide Dashed, Texts, Admitted;
    ghost var texts := Texts(items);
    var buffer := new char[SIZE](i => NUL);
    ghost var s := "";
    ghost var n: nat := 0;
    DashedOfNone(texts);
    AdmittedNext(texts, 0, Dashed);
    NoTexts(items);
    var i := 0;
    while i < |items|
      invariant 0 <= i <= |items| && n == |Texts(items[..i])|
      invariant Texts(items[..i]) <= texts && Admitted(texts, n, Dashed)
      invariant Holds(buffer, s) && s == Dashed(texts[..n]) && (n == 0 <==> s == "") && |s| < SIZE
    {
      TextsOfPrefix(items, i);
      if items[i].Text? {
        var v := items[i].value;
        assert texts[n] == v && texts[..n + 1] == texts[..n] + [v];
        DashedAppend(texts[..n], v);
        AdmittedNext(texts, n, Dashed);
        var length := Strlen(buffer, s);
        if length + |v| + 2 > SIZE {
          break;
        }
        Strcat(buffer, s, "-");
        s := s + "-";
        Strcat(buffer, s, v);
        s := s + v;
        n := n + 1;
      }
      i := i + 1;
    }
    assert i == |items| ==> items[..i] == items;
    assert buffer[0] != NUL <==> s != "" by {
      assert s != "" ==> buffer[..|s|][0] == s[0];
    }
    if buffer[0] != NUL {
      var length := Strlen(buffer, s);
      keys := Some(buffer[..length]);
    } else {
      keys := None;
    }
    assert Longest(texts, n, Dashed);
  }

  lemma NoTexts(items: seq<Item>)
    ensures Texts(items[..0]) == []
  {
  }

  lemma JoinedOfNone(texts: seq<string>)
    ensures Joined(texts[..0]) == ""
  {
  }

  lemma DashedOfNone(texts: seq<string>)
    ensures Dashed(texts[..0]) == ""
  {
  }

  // When nothing is cut off.

  lemma {:induction false} JoinedGrows(texts: seq<string>, j: nat)
    requires j <= |texts|
    ensures |Joined(texts[..j])| <= |Joined(texts)|
    decreases |texts| - j
  {
    if j < |texts| {
      assert texts[..j + 1] == texts[..j] + [texts[j]];
      JoinedAppend(texts[..j], texts[j]);
      JoinedGrows(texts, j + 1);
    } else {
      assert texts[..j] == texts;
    }
  }

  lemma {:induction false} DashedGrows(texts: seq<string>, j: nat)
    requires j <= |texts|
    ensures |Dashed(texts[..j])| <= |Dashed(texts)|
    decreases |texts| - j
  {
    if j < |texts| {
      assert texts[..j + 1] == texts[..j] + [texts[j]];
      DashedAppend(texts[..j], texts[j]);
      DashedGrows(texts, j + 1);
    } else {
      assert texts[..j] == texts;
    }
  }

  lemma DashedStep(texts: seq<string>, j: nat)
    requires j < |texts|
    ensures |Dashed(texts[..j])| + |texts[j]| + 1 == |Dashed(texts[..j + 1])| <= |Dashed(texts)|
  {
    hide Dashed;
    assert texts[..j + 1] == texts[..j] + [texts[j]];
    DashedAppend(texts[..j], texts[j]);
    DashedGrows(texts, j + 1);
  }

  lemma JoinedStep(texts: seq<string>, j: nat)
    requires j < |texts|
    ensures |Joined(texts[..j])| + |texts[j]| + (if Joined(texts[..j]) == "" then 0 else 1) == |Joined(texts[..j + 1])|
        <= |Joined(texts)|
  {
    hide Joined;
    assert texts[..j + 1] == texts[..j] + [texts[j]];
    JoinedAppend(texts[..j], texts[j]);
    JoinedGrows(texts, j + 1);
  }

  /** All keys are kept exactly when they fit into the buffer. */
  lemma AllKeysAreKept(texts: seq<string>)
    ensures Admitted(texts, |texts|, Dashed) <==> |Dashed(texts)| < 4096
  {
    hide Dashed;
    var n := |texts|;
    assert texts[..n] == texts;
    if n == 0 {
      DashedOfNone(texts);
    } else {
      DashedStep(texts, n - 1);
      if Admitted(texts, n, Dashed) {
        assert |Dashed(texts[..n - 1])| + |texts[n - 1]| + 2 <= SIZE;
      }
    }
    forall j | 0 <= j < n && |Dashed(texts)| < SIZE ensures |Dashed(texts[..j])| + |texts[j]| + 2 <= SIZE {
      DashedStep(texts, j);
    }
  }

  /** All arguments are kept exactly when they fit and none of them would fill the buffer alone. */
  lemma AllArgumentsAreKept(texts: seq<string>)
    ensures Admitted(texts, |texts|, Joined)
        <==> |Joined(texts)| < 4096 && forall j :: 0 <= j < |texts| ==> |texts[j]| < 4095
  {
    hide Joined;
    var n := |texts|;
    assert texts[..n] == texts;
    if n == 0 {
      JoinedOfNone(texts);
    } else {
      JoinedStep(texts, n - 1);
      if Admitted(texts, n, Joined) {
        assert |Joined(texts[..n - 1])| + |texts[n - 1]| + 2 <= SIZE;
      }
    }
    if |Joined(texts)| < SIZE && forall j :: 0 <= j < n ==> |texts[j]| < SIZE - 1 {
      forall j | 0 <= j < n ensures |Joined(texts[..j])| + |texts[j]| + 2 <= SIZE {
        JoinedStep(texts, j);
      }
    }
  }

  // The key string names a repeated offender, so that different keys should not come to the same string.

  /** Keys without a dash can be read off the string. */
  lemma KeysAreReadBack(texts: seq<string>)
    requires forall k :: 0 <= k < |texts| ==> '-' !in texts[k]
    ensures Strings.Split(Dashed(texts), "-") == [""] + texts
  {
    var pieces := [""] + texts;
    DashedIsJoin("", texts);
    assert "" + Dashed(texts) == Dashed(texts);
    forall k | 0 <= k < |pieces| ensures !Strings.Contains(pieces[k], "-") {
      NoDash(pieces[k]);
    }
    Strings.SplitOfJoin(pieces, "-");
  }

  lemma NoDash(s: string)
    requires '-' !in s
    ensures !Strings.Contains(s, "-")
  {
    forall i ensures !Strings.OccursAt(s, "-", i) {
      assert 0 <= i < |s| ==> s[i..i + 1][0] != "-"[0];
    }
  }

  lemma {:induction false} DashedIsJoin(first: string, texts: seq<string>)
    ensures Strings.Join([first] + texts, "-") == first + Dashed(texts)
    decreases |texts|
  {
    assert ([first] + texts)[1..] == texts;
    if texts != [] {
      DashedIsJoin(texts[0], texts[1..]);
      assert texts == [texts[0]] + texts[1..];
    }
  }

  /** The keys cut at their dashes. */
  function Parts(texts: seq<string>): seq<string> {
    if texts == [] then [] else Strings.Split(texts[0], "-") + Parts(texts[1..])
  }

  lemma {:induction false} DashedOfBoth(first: seq<string>, second: seq<string>)
    ensures Dashed(first + second) == Dashed(first) + Dashed(second)
  {
    if first == [] {
      assert first + second == second;
    } else {
      assert (first + second)[1..] == first[1..] + second;
      DashedOfBoth(first[1..], second);
    }
  }

  /** A key between dashes looks like the parts it is cut into. */
  lemma DashedOfSplit(text: string)
    ensures Dashed(Strings.Split(text, "-")) == "-" + text
  {
    var parts := Strings.Split(text, "-");
    DashedIsJoin(parts[0], parts[1..]);
    assert parts == [parts[0]] + parts[1..];
    Strings.JoinOfSplit(text, "-");
    assert Dashed(parts) == "-" + (parts[0] + Dashed(parts[1..]));
  }

  lemma {:induction false} DashedOfParts(texts: seq<string>)
    ensures Dashed(Parts(texts)) == Dashed(texts)
  {
    if texts != [] {
      DashedOfParts(texts[1..]);
      DashedOfSplit(texts[0]);
      DashedOfBoth(Strings.Split(texts[0], "-"), Parts(texts[1..]));
    }
  }

  lemma {:induction false} PartsHaveNoDash(texts: seq<string>)
    ensures forall k :: 0 <= k < |Parts(texts)| ==> '-' !in Parts(texts)[k]
  {
    if texts != [] {
      PartsHaveNoDash(texts[1..]);
      var first := Strings.Split(texts[0], "-");
      Strings.SplitPiecesAreFree(texts[0], "-");
      forall k | 0 <= k < |first| ensures '-' !in first[k] {
        HasNoDash(first[k]);
      }
    }
  }

  lemma HasNoDash(s: string)
    ensures !Strings.Contains(s, "-") ==> '-' !in s
  {
    if '-' in s {
      var k :| 0 <= k < |s| && s[k] == '-';
      assert s[k..k + 1] == "-";
      assert Strings.OccursAt(s, "-", k);
    }
  }

  /** Two lists of keys come to the same string exactly when they are the same after cutting every key at its dashes. */
  lemma SameKeyString(a: seq<string>, b: seq<string>)
    ensures Dashed(a) == Dashed(b) <==> Parts(a) == Parts(b)
  {
    DashedOfParts(a);
    DashedOfParts(b);
    PartsHaveNoDash(a);
    PartsHaveNoDash(b);
    KeysAreReadBack(Parts(a));
    KeysAreReadBack(Parts(b));
    if Dashed(a) == Dashed(b) {
      assert ([""] + Parts(a))[1..] == Parts(a) && ([""] + Parts(b))[1..] == Parts(b);
    }
  }

  /** So two requests can count as one offender. */
  lemma KeysCollide()
    ensures Dashed(["10.0.0.1", "root"]) == Dashed(["10.0.0.1-root"])
  {
    assert ["10.0.0.1", "root"][1..] == ["root"] && ["root"][1..] == [] && ["10.0.0.1-root"][1..] == [];
    assert "10.0.0.1-root" == "10.0.0.1" + "-" + "root";
  }
}
