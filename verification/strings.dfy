/** Searching, splitting and joining strings, as the JavaScript and Python built-ins do it. */
module Strings {
  import opened Options

  ghost predicate OccursAt(s: string, p: string, i: int) {
    0 <= i && i + |p| <= |s| && s[i..i + |p|] == p
  }

  ghost predicate Contains(s: string, p: string) {
    exists i :: OccursAt(s, p, i)
  }

  /** The first place where `p` occurs. */
  function Find(s: string, p: string): (r: Option<nat>)
    ensures r.Some? ==> r.value + |p| <= |s|
  {
    FindFrom(s, p, 0)
  }

  function FindFrom(s: string, p: string, k: nat): (r: Option<nat>)
    ensures r.Some? ==> r.value + |p| <= |s|
    decreases |s| - k
  {
    if k + |p| > |s| then None
    else if s[k..k + |p|] == p then Some(k)
    else FindFrom(s, p, k + 1)
  }

  ghost predicate FirstAt(s: string, p: string, i: int) {
    OccursAt(s, p, i) && forall j :: 0 <= j < i ==> !OccursAt(s, p, j)
  }

  lemma {:induction false} FindFromIsFirst(s: string, p: string, k: nat)
    requires forall j :: 0 <= j < k ==> !OccursAt(s, p, j)
    ensures match FindFrom(s, p, k) case Some(i) => FirstAt(s, p, i) case None => !Contains(s, p)
    decreases |s| - k
  {
    if k + |p| <= |s| {
      if s[k..k + |p|] == p {
        assert OccursAt(s, p, k);
      } else {
        FindFromIsFirst(s, p, k + 1);
      }
    }
  }

  lemma FindIsFirst(s: string, p: string)
    ensures match Find(s, p) case Some(i) => FirstAt(s, p, i) case None => !Contains(s, p)
  {
    FindFromIsFirst(s, p, 0);
  }

  lemma FindIs(s: string, p: string, i: nat)
    requires FirstAt(s, p, i)
    ensures Find(s, p) == Some(i)
  {
    FindIsFirst(s, p);
  }

  lemma NotFound(s: string, p: string)
    requires !Contains(s, p)
    ensures Find(s, p) == None
  {
    FindIsFirst(s, p);
  }

  /** Cut at the non-overlapping occurrences of `sep`, taken from the left. */
  function Split(s: string, sep: string): (pieces: seq<string>)
    requires sep != ""
    ensures |pieces| > 0
    decreases |s|
  {
    match Find(s, sep)
    case None => [s]
    case Some(i) => [s[..i]] + Split(s[i + |sep|..], sep)
  }

  lemma SplitAt(head: string, sep: string, tail: string)
    requires sep != "" && Find(head + sep + tail, sep) == Some(|head|)
    ensures Split(head + sep + tail, sep) == [head] + Split(tail, sep)
  {
    var s := head + sep + tail;
    assert s[..|head|] == head && s[|head| + |sep|..] == tail;
  }

  function Join(pieces: seq<string>, sep: string): string {
    if pieces == [] then ""
    else if |pieces| == 1 then pieces[0]
    else pieces[0] + sep + Join(pieces[1..], sep)
  }

  lemma JoinOfOne(piece: string, sep: string)
    ensures Join([piece], sep) == piece
  {
  }

  lemma {:induction false} JoinAppend(first: seq<string>, second: seq<string>, sep: string)
    requires first != [] && second != []
    ensures Join(first + second, sep) == Join(first, sep) + sep + Join(second, sep)
  {
    if |first| == 1 {
      assert (first + second)[1..] == second;
    } else {
      assert (first + second)[1..] == first[1..] + second;
      JoinAppend(first[1..], second, sep);
    }
  }

  ghost predicate AllFree(pieces: seq<string>, p: string) {
    forall k :: 0 <= k < |pieces| ==> !Contains(pieces[k], p)
  }

  /** No proper prefix of `p` is also a suffix of it, so that two occurrences never overlap. */
  ghost predicate Unbordered(p: string) {
    forall k :: 0 < k < |p| ==> p[k..] != p[..|p| - k]
  }

  lemma OccursInSubstring(s: string, p: string, i: nat, j: nat, k: int)
    requires i <= j <= |s|
    ensures OccursAt(s[i..j], p, k) <==> i <= i + k && i + k + |p| <= j && OccursAt(s, p, i + k)
  {
    if 0 <= k && i + k + |p| <= j {
      var a, b := s[i..j][k..k + |p|], s[i + k..i + k + |p|];
      assert forall m :: 0 <= m < |p| ==> a[m] == s[i + k + m] == b[m];
      assert a == b;
    }
  }

  /** Overlapping occurrences make a border. */
  lemma OverlapIsBorder(s: string, p: string, i: int, j: int)
    requires OccursAt(s, p, i) && OccursAt(s, p, j) && i < j < i + |p|
    ensures p[j - i..] == p[..|p| - (j - i)]
  {
    assert p[j - i..] == s[j..i + |p|] == p[..|p| - (j - i)];
  }

  lemma SubstringFree(s: string, p: string, i: nat, j: nat)
    requires i <= j <= |s| && !Contains(s, p)
    ensures !Contains(s[i..j], p)
  {
    forall k
      ensures !OccursAt(s[i..j], p, k)
    {
      OccursInSubstring(s, p, i, j, k);
    }
  }

  lemma {:induction false} SplitPiecesAreFree(s: string, sep: string)
    requires sep != ""
    ensures AllFree(Split(s, sep), sep)
    decreases |s|
  {
    FindIsFirst(s, sep);
    match Find(s, sep)
    case None =>
    case Some(i) =>
      forall k
        ensures !OccursAt(s[..i], sep, k)
      {
        assert s[..i] == s[0..i];
        OccursInSubstring(s, sep, 0, i, k);
      }
      SplitPiecesAreFree(s[i + |sep|..], sep);
  }

  lemma {:induction false} SplitPiecesInherit(s: string, sep: string, p: string)
    requires sep != "" && !Contains(s, p)
    ensures AllFree(Split(s, sep), p)
    decreases |s|
  {
    match Find(s, sep)
    case None =>
    case Some(i) =>
      SubstringFree(s, p, 0, i);
      SubstringFree(s, p, i + |sep|, |s|);
      assert s[0..i] == s[..i] && s[i + |sep|..|s|] == s[i + |sep|..];
      SplitPiecesInherit(s[i + |sep|..], sep, p);
  }

  lemma {:induction false} JoinOfSplit(s: string, sep: string)
    requires sep != ""
    ensures Join(Split(s, sep), sep) == s
    decreases |s|
  {
    match Find(s, sep)
    case None =>
    case Some(i) =>
      var rest := Split(s[i + |sep|..], sep);
      FindIsFirst(s, sep);
      JoinOfSplit(s[i + |sep|..], sep);
      assert ([s[..i]] + rest)[1..] == rest;
      assert s == s[..i] + s[i..i + |sep|] + s[i + |sep|..];
  }

  /**
   After a piece that does not contain it, the first occurrence of an unbordered separator is the separator
   itself.
   */
  lemma FindAfterPiece(piece: string, sep: string, rest: string)
    requires sep != "" && Unbordered(sep) && !Contains(piece, sep)
    ensures Find(piece + sep + rest, sep) == Some(|piece|)
  {
    var s := piece + sep + rest;
    assert s[|piece|..|piece| + |sep|] == sep;
    assert OccursAt(s, sep, |piece|);
    forall i | 0 <= i < |piece|
      ensures !OccursAt(s, sep, i)
    {
      if OccursAt(s, sep, i) {
        if i + |sep| <= |piece| {
          assert s[0..|piece|] == piece;
          OccursInSubstring(s, sep, 0, |piece|, i);
        } else {
          OverlapIsBorder(s, sep, i, |piece|);
        }
      }
    }
    FindIs(s, sep, |piece|);
  }

  lemma {:induction false} SplitOfJoin(pieces: seq<string>, sep: string)
    requires sep != "" && Unbordered(sep) && pieces != [] && AllFree(pieces, sep)
    ensures Split(Join(pieces, sep), sep) == pieces
    decreases |pieces|
  {
    if |pieces| == 1 {
      NotFound(pieces[0], sep);
    } else {
      var tail := Join(pieces[1..], sep);
      var s := pieces[0] + sep + tail;
      FindAfterPiece(pieces[0], sep, tail);
      assert s[..|pieces[0]|] == pieces[0] && s[|pieces[0]| + |sep|..] == tail;
      SplitOfJoin(pieces[1..], sep);
    }
  }
}
