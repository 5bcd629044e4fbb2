/** `patchFile` of the dashboard's post-install script: rewriting text so that a second run changes nothing. */
module PatchFile {
  import opened Options
  import opened Strings

  datatype Patch = Patch(from: string, to: string)

  /** Splitting at an empty string is another operation of the language. */
  predicate Proper(patch: Patch) {
    patch.from != "" && patch.to != ""
  }

  function SplitEach(tokens: seq<string>, sep: string): (pieces: seq<string>)
    requires sep != ""
    ensures tokens != [] ==> pieces != []
  {
    if tokens == [] then [] else Split(tokens[0], sep) + SplitEach(tokens[1..], sep)
  }

  /** `split(to).map(token => token.split(from)).flat()` */
  function Pieces(s: string, patch: Patch): (pieces: seq<string>)
    requires Proper(patch)
    ensures pieces != []
  {
    SplitEach(Split(s, patch.to), patch.from)
  }

  function Apply(s: string, patch: Patch): string
    requires Proper(patch)
  {
    Join(Pieces(s, patch), patch.to)
  }

  lemma {:induction false} SplitEachIsFree(tokens: seq<string>, sep: string, p: string)
    requires sep != "" && AllFree(tokens, p)
    ensures AllFree(SplitEach(tokens, sep), sep) && AllFree(SplitEach(tokens, sep), p)
  {
    if tokens != [] {
      SplitPiecesAreFree(tokens[0], sep);
      SplitPiecesInherit(tokens[0], sep, p);
      SplitEachIsFree(tokens[1..], sep, p);
    }
  }

  lemma PiecesAreFree(s: string, patch: Patch)
    requires Proper(patch)
    ensures AllFree(Pieces(s, patch), patch.from) && AllFree(Pieces(s, patch), patch.to)
  {
    SplitPiecesAreFree(s, patch.to);
    SplitEachIsFree(Split(s, patch.to), patch.from, patch.to);
  }

  lemma {:induction false} SplitEachOfFree(tokens: seq<string>, sep: string)
    requires sep != "" && AllFree(tokens, sep)
    ensures SplitEach(tokens, sep) == tokens
  {
    if tokens != [] {
      NotFound(tokens[0], sep);
      SplitEachOfFree(tokens[1..], sep);
      assert tokens == [tokens[0]] + tokens[1..];
    }
  }

  /** Patching a patched text changes nothing. */
  lemma ApplyIsIdempotent(s: string, patch: Patch)
    requires Proper(patch) && Unbordered(patch.to)
    ensures Apply(Apply(s, patch), patch) == Apply(s, patch)
  {
    PiecesAreFree(s, patch);
    SplitOfJoin(Pieces(s, patch), patch.to);
    SplitEachOfFree(Pieces(s, patch), patch.from);
  }

  // What one patch does to the text.

  /** `pieces` with `seps` between them. */
  function Weave(pieces: seq<string>, seps: seq<string>): string
    requires |pieces| == |seps| + 1
  {
    if seps == [] then pieces[0] else pieces[0] + seps[0] + Weave(pieces[1..], seps[1..])
  }

  function Repeat(sep: string, n: nat): (seps: seq<string>)
    ensures |seps| == n && forall k :: 0 <= k < n ==> seps[k] == sep
  {
    seq(n, _ => sep)
  }

  /** What stood between the pieces: `from` inside a token, `to` between tokens. */
  function Separators(tokens: seq<string>, patch: Patch): (seps: seq<string>)
    requires Proper(patch) && tokens != []
    ensures |seps| + 1 == |SplitEach(tokens, patch.from)|
    ensures forall k :: 0 <= k < |seps| ==> seps[k] == patch.from || seps[k] == patch.to
  {
    var inside := Repeat(patch.from, |Split(tokens[0], patch.from)| - 1);
    if |tokens| == 1 then
      assert SplitEach(tokens[1..], patch.from) == [];
      inside
    else
      inside + [patch.to] + Separators(tokens[1..], patch)
  }

  lemma {:induction false} WeaveAppend(first: seq<string>, inside: seq<string>, sep: string, rest: seq<string>,
      seps: seq<string>)
    requires |first| == |inside| + 1 && |rest| == |seps| + 1
    ensures Weave(first + rest, inside + [sep] + seps) == Weave(first, inside) + sep + Weave(rest, seps)
    decreases |inside|
  {
    var pieces, all := first + rest, inside + [sep] + seps;
    if inside == [] {
      assert pieces[1..] == rest && all[1..] == seps;
    } else {
      assert pieces[1..] == first[1..] + rest && all[1..] == inside[1..] + [sep] + seps;
      WeaveAppend(first[1..], inside[1..], sep, rest, seps);
    }
  }

  lemma {:induction false} JoinIsWeave(pieces: seq<string>, sep: string)
    requires pieces != []
    ensures Join(pieces, sep) == Weave(pieces, Repeat(sep, |pieces| - 1))
  {
    if |pieces| > 1 {
      JoinIsWeave(pieces[1..], sep);
      assert Repeat(sep, |pieces| - 1)[1..] == Repeat(sep, |pieces| - 2);
    }
  }

  lemma {:induction false} WeaveOfTokens(tokens: seq<string>, patch: Patch)
    requires Proper(patch) && tokens != []
    ensures Weave(SplitEach(tokens, patch.from), Separators(tokens, patch)) == Join(tokens, patch.to)
  {
    var first := Split(tokens[0], patch.from);
    var inside := Repeat(patch.from, |first| - 1);
    JoinIsWeave(first, patch.from);
    JoinOfSplit(tokens[0], patch.from);
    if |tokens| == 1 {
      assert SplitEach(tokens, patch.from) == first;
    } else {
      WeaveOfTokens(tokens[1..], patch);
      WeaveAppend(first, inside, patch.to, SplitEach(tokens[1..], patch.from), Separators(tokens[1..], patch));
    }
  }

  /**
   `s` is the pieces, which contain neither string, with `from` or `to` between them; `t` is the
   same pieces in the same order with `to` between them.
   */
  ghost predicate Rewrites(s: string, t: string, patch: Patch, pieces: seq<string>, seps: seq<string>) {
    && |pieces| == |seps| + 1
    && AllFree(pieces, patch.from) && AllFree(pieces, patch.to)
    && (forall k :: 0 <= k < |seps| ==> seps[k] == patch.from || seps[k] == patch.to)
    && s == Weave(pieces, seps)
    && t == Weave(pieces, Repeat(patch.to, |seps|))
  }

  /** Patching only replaces separators, and leaves none of them unreplaced. */
  lemma ApplyRewritesSeparators(s: string, patch: Patch)
    requires Proper(patch)
    ensures exists pieces, seps :: Rewrites(s, Apply(s, patch), patch, pieces, seps)
  {
    hide Split, Separators, AllFree, SplitEach, Weave, Join;
    var tokens := Split(s, patch.to);
    var pieces, seps := Pieces(s, patch), Separators(tokens, patch);
    PiecesAreFree(s, patch);
    WeaveOfTokens(tokens, patch);
    JoinOfSplit(s, patch.to);
    JoinIsWeave(pieces, patch.to);
    assert Rewrites(s, Apply(s, patch), patch, pieces, seps);
  }

  /**
   What is already patched stays, and only what lies outside of it is patched: the first target, if there
   is one, cuts the text into two that are patched on their own; otherwise the first source is replaced.
   */
  lemma PatchingByParts(s: string, patch: Patch)
    requires Proper(patch)
    ensures forall i: nat :: FirstAt(s, patch.to, i) ==>
              Apply(s, patch) == Apply(s[..i], patch) + patch.to + Apply(s[i + |patch.to|..], patch)
    ensures forall i: nat :: !Contains(s, patch.to) && FirstAt(s, patch.from, i) ==>
              Apply(s, patch) == s[..i] + patch.to + Apply(s[i + |patch.from|..], patch)
    ensures !Contains(s, patch.to) && !Contains(s, patch.from) ==> Apply(s, patch) == s
  {
    forall i: nat | FirstAt(s, patch.to, i)
      ensures Apply(s, patch) == Apply(s[..i], patch) + patch.to + Apply(s[i + |patch.to|..], patch)
    {
      CutAtTarget(s, patch, i);
    }
    forall i: nat | !Contains(s, patch.to) && FirstAt(s, patch.from, i)
      ensures Apply(s, patch) == s[..i] + patch.to + Apply(s[i + |patch.from|..], patch)
    {
      CutAtSource(s, patch, i);
    }
    if !Contains(s, patch.to) && !Contains(s, patch.from) {
      ApplyWithoutTarget(s, patch);
      NotFound(s, patch.from);
    }
  }

  lemma ApplyWithoutTarget(s: string, patch: Patch)
    requires Proper(patch) && !Contains(s, patch.to)
    ensures Pieces(s, patch) == Split(s, patch.from)
    ensures Apply(s, patch) == Join(Split(s, patch.from), patch.to)
  {
    NotFound(s, patch.to);
    assert Split(s, patch.to) == [s] && [s][1..] == [];
    assert SplitEach([s][1..], patch.from) == [];
  }

  lemma CutAtTarget(s: string, patch: Patch, i: nat)
    requires Proper(patch) && FirstAt(s, patch.to, i)
    ensures Apply(s, patch) == Apply(s[..i], patch) + patch.to + Apply(s[i + |patch.to|..], patch)
  {
    hide Split, Join;
    var head, rest := s[..i], s[i + |patch.to|..];
    FindIs(s, patch.to, i);
    SplitUnfolds(s, patch.to, i);
    BeforeTheFirst(s, patch.to, i);
    ApplyWithoutTarget(head, patch);
    assert ([head] + Split(rest, patch.to))[1..] == Split(rest, patch.to);
    JoinAppend(Split(head, patch.from), Pieces(rest, patch), patch.to);
  }

  lemma CutAtSource(s: string, patch: Patch, i: nat)
    requires Proper(patch) && !Contains(s, patch.to) && FirstAt(s, patch.from, i)
    ensures Apply(s, patch) == s[..i] + patch.to + Apply(s[i + |patch.from|..], patch)
  {
    hide Split, Join;
    var head, rest := s[..i], s[i + |patch.from|..];
    FindIs(s, patch.from, i);
    SplitUnfolds(s, patch.from, i);
    SubstringFree(s, patch.to, i + |patch.from|, |s|);
    assert s[i + |patch.from|..|s|] == rest;
    ApplyWithoutTarget(s, patch);
    ApplyWithoutTarget(rest, patch);
    JoinAppend([head], Split(rest, patch.from), patch.to);
    JoinOfOne(head, patch.to);
  }

  lemma SplitUnfolds(s: string, sep: string, i: nat)
    requires sep != "" && Find(s, sep) == Some(i)
    ensures Split(s, sep) == [s[..i]] + Split(s[i + |sep|..], sep)
  {
  }

  lemma BeforeTheFirst(s: string, p: string, i: nat)
    requires FirstAt(s, p, i) && p != ""
    ensures !Contains(s[..i], p)
  {
    forall j ensures !OccursAt(s[..i], p, j) {
      OccursInSubstring(s, p, 0, i, j);
    }
    assert s[0..i] == s[..i];
  }

  // When a run changes nothing.

  /** Replacing separators of another length changes the length of the text. */
  lemma {:induction false} WeaveLength(pieces: seq<string>, seps: seq<string>, from: string, to: string)
    requires |pieces| == |seps| + 1 && |from| != |to|
    requires forall k :: 0 <= k < |seps| ==> seps[k] == from || seps[k] == to
    ensures var before, after := |Weave(pieces, seps)|, |Weave(pieces, Repeat(to, |seps|))|;
            && (if |from| < |to| then before <= after else before >= after)
            && (from in seps ==> before != after)
    decreases |seps|
  {
    if seps != [] {
      assert Repeat(to, |seps|)[1..] == Repeat(to, |seps| - 1);
      assert seps == [seps[0]] + seps[1..];
      WeaveLength(pieces[1..], seps[1..], from, to);
    }
  }

  lemma {:induction false} WeaveDiffers(pieces: seq<string>, seps: seq<string>, from: string, to: string)
    requires |pieces| == |seps| + 1 && from != to && from in seps
    requires forall k :: 0 <= k < |seps| ==> seps[k] == from || seps[k] == to
    ensures Weave(pieces, seps) != Weave(pieces, Repeat(to, |seps|))
    decreases |seps|
  {
    if |from| != |to| {
      WeaveLength(pieces, seps, from, to);
    } else {
      assert Repeat(to, |seps|)[1..] == Repeat(to, |seps| - 1);
      var a, b := Weave(pieces[1..], seps[1..]), Weave(pieces[1..], Repeat(to, |seps| - 1));
      var n := |pieces[0]|;
      var s, t := pieces[0] + seps[0] + a, pieces[0] + to + b;
      assert s[n..n + |to|] == seps[0] && t[n..n + |to|] == to;
      if seps[0] == to {
        assert seps == [seps[0]] + seps[1..];
        WeaveDiffers(pieces[1..], seps[1..], from, to);
        assert s[n + |to|..] == a && t[n + |to|..] == b;
      }
    }
  }

  lemma {:induction false} WeaveOfEqual(pieces: seq<string>, seps: seq<string>, to: string)
    requires |pieces| == |seps| + 1 && forall k :: 0 <= k < |seps| ==> seps[k] == to
    ensures Weave(pieces, seps) == Weave(pieces, Repeat(to, |seps|))
  {
    assert seps == Repeat(to, |seps|);
  }

  /** A source inside a token is one of the separators. */
  lemma {:induction false} SourceIsSeparator(tokens: seq<string>, patch: Patch)
    requires Proper(patch) && tokens != []
    ensures !AllFree(tokens, patch.from) ==> patch.from in Separators(tokens, patch)
  {
    hide Contains;
    var inside := Repeat(patch.from, |Split(tokens[0], patch.from)| - 1);
    FindIsFirst(tokens[0], patch.from);
    if Contains(tokens[0], patch.from) {
      assert |inside| > 0 && inside[0] == patch.from;
      assert Separators(tokens, patch)[0] == patch.from;
    } else if |tokens| > 1 {
      SourceIsSeparator(tokens[1..], patch);
      assert tokens == [tokens[0]] + tokens[1..];
      assert Separators(tokens, patch) == inside + [patch.to] + Separators(tokens[1..], patch);
    }
  }

  /**
   A run leaves a text alone exactly when no source is left outside of its targets (or the patch replaces
   nothing).
   */
  lemma RunChangesNothing(t: string, patch: Patch)
    requires Proper(patch)
    ensures Apply(t, patch) == t <==> patch.from == patch.to || Clean(t, patch)
  {
    hide Split, Separators, AllFree, SplitEach, Weave, Join;
    if Clean(t, patch) {
      CleanIsFixed(t, patch);
    } else {
      var tokens := Split(t, patch.to);
      var pieces, seps := Pieces(t, patch), Separators(tokens, patch);
      WeaveOfTokens(tokens, patch);
      JoinOfSplit(t, patch.to);
      JoinIsWeave(pieces, patch.to);
      SourceIsSeparator(tokens, patch);
      if patch.from == patch.to {
        WeaveOfEqual(pieces, seps, patch.to);
      } else {
        WeaveDiffers(pieces, seps, patch.from, patch.to);
      }
    }
  }

  /** For any patch and text, the exact condition under which patching twice is patching once. */
  lemma SecondRunChangesNothing(s: string, patch: Patch)
    requires Proper(patch)
    ensures Apply(Apply(s, patch), patch) == Apply(s, patch)
        <==> patch.from == patch.to || Clean(Apply(s, patch), patch)
  {
    RunChangesNothing(Apply(s, patch), patch);
  }

  // A list of patches.

  ghost predicate Usable(patches: seq<Patch>) {
    forall k :: 0 <= k < |patches| ==> Proper(patches[k])
  }

  function ApplyAll(s: string, patches: seq<Patch>): string
    requires Usable(patches)
    decreases |patches|
  {
    if patches == [] then s else ApplyAll(Apply(s, patches[0]), patches[1..])
  }

  /** The patches of a list are applied one after another, the first of them first. */
  lemma {:induction false} OneAfterAnother(s: string, first: seq<Patch>, second: seq<Patch>, patch: Patch)
    requires Usable(first) && Usable(second) && Proper(patch)
    ensures ApplyAll(s, [patch]) == Apply(s, patch) && ApplyAll(s, []) == s
    ensures Usable(first + second) && ApplyAll(s, first + second) == ApplyAll(ApplyAll(s, first), second)
    decreases |first|
  {
    hide Apply;
    assert [patch][1..] == [];
    if first == [] {
      assert first + second == second;
    } else {
      assert (first + second)[1..] == first[1..] + second;
      assert forall k :: 0 <= k < |second| ==> (first + second)[|first| + k] == second[k];
      OneAfterAnother(Apply(s, first[0]), first[1..], second, patch);
    }
  }

  /** Laid over each other at any offset where they share a position, the strings differ somewhere. */
  ghost predicate Apart(p: string, q: string) {
    forall k :: -|q| < k < |p| ==> Differ(p, q, k)
  }

  ghost predicate Differ(p: string, q: string, k: int) {
    exists m :: 0 <= m < |p| && 0 <= m - k < |q| && p[m] != q[m - k]
  }

  ghost predicate Independent(a: Patch, b: Patch) {
    Apart(a.from, b.from) && Apart(a.from, b.to) && Apart(a.to, b.from) && Apart(a.to, b.to)
  }

  /** Nothing left to patch. */
  ghost predicate Clean(s: string, patch: Patch)
    requires Proper(patch)
  {
    AllFree(Split(s, patch.to), patch.from)
  }

  lemma CleanIsFixed(s: string, patch: Patch)
    requires Proper(patch) && Clean(s, patch)
    ensures Apply(s, patch) == s
  {
    SplitEachOfFree(Split(s, patch.to), patch.from);
    JoinOfSplit(s, patch.to);
  }

  lemma ApplyCleans(s: string, patch: Patch)
    requires Proper(patch) && Unbordered(patch.to)
    ensures Clean(Apply(s, patch), patch)
  {
    PiecesAreFree(s, patch);
    SplitOfJoin(Pieces(s, patch), patch.to);
  }

  lemma SharingMeansAgreeing(before: string, sep: string, after: string, p: string, i: int)
    requires OccursAt(before + sep + after, p, i)
    ensures !Differ(p, sep, |before| - i)
  {
    var s, k := before + sep + after, |before| - i;
    forall m | 0 <= m < |p| && 0 <= m - k < |sep|
      ensures p[m] == sep[m - k]
    {
      assert p[m] == s[i..i + |p|][m] == s[i + m];
    }
  }

  lemma NeverAcross(before: string, sep: string, after: string, p: string, i: int)
    requires Apart(p, sep) && OccursAt(before + sep + after, p, i)
    ensures i + |p| <= |before| || |before| + |sep| <= i
  {
    SharingMeansAgreeing(before, sep, after, p, i);
  }

  /** Strings that are apart never share a position of a text. */
  lemma OccursAround(before: string, sep: string, after: string, p: string, i: int)
    requires Apart(p, sep) && p != "" && sep != ""
    ensures OccursAt(before + sep + after, p, i) <==> OccursAt(before, p, i) || OccursAt(after, p, i - |before| - |sep|)
  {
    var s := before + sep + after;
    var j := |before|;
    var e := j + |sep|;
    assert s[0..j] == before && s[e..|s|] == after;
    OccursInSubstring(s, p, 0, j, i);
    OccursInSubstring(s, p, e, |s|, i - e);
    if OccursAt(s, p, i) {
      NeverAcross(before, sep, after, p, i);
    }
  }

  lemma FreeAround(before: string, sep: string, after: string, p: string)
    requires Apart(p, sep) && p != "" && sep != ""
    ensures Contains(before + sep + after, p) <==> Contains(before, p) || Contains(after, p)
  {
    var s, e := before + sep + after, |before| + |sep|;
    if i :| OccursAt(s, p, i) {
      OccursAround(before, sep, after, p, i);
    } else {
      forall i
        ensures !OccursAt(before, p, i) && !OccursAt(after, p, i)
      {
        OccursAround(before, sep, after, p, i);
        OccursAround(before, sep, after, p, i + e);
      }
    }
  }

  lemma FindBefore(before: string, sep: string, after: string, p: string)
    requires Apart(p, sep) && p != "" && sep != "" && Find(before, p).Some?
    ensures Find(before + sep + after, p) == Find(before, p)
  {
    var i := Find(before, p).value;
    FindIsFirst(before, p);
    forall j | 0 <= j <= i
      ensures OccursAt(before + sep + after, p, j) <==> j == i
    {
      OccursAround(before, sep, after, p, j);
    }
    FindIs(before + sep + after, p, i);
  }

  lemma FindAfter(before: string, sep: string, after: string, p: string)
    requires Apart(p, sep) && p != "" && sep != "" && Find(before, p).None? && Find(after, p).Some?
    ensures Find(before + sep + after, p) == Some(|before| + |sep| + Find(after, p).value)
  {
    var i := |before| + |sep| + Find(after, p).value;
    FindIsFirst(before, p);
    FindIsFirst(after, p);
    forall j | 0 <= j <= i
      ensures OccursAt(before + sep + after, p, j) <==> j == i
    {
      OccursAround(before, sep, after, p, j);
      assert !OccursAt(before, p, j);
    }
    FindIs(before + sep + after, p, i);
  }

  /** A separator that is apart from both strings of a patch cuts the text into two that can be judged alone. */
  lemma {:induction false} CleanAround(before: string, sep: string, after: string, patch: Patch)
    requires Proper(patch) && sep != "" && Apart(patch.from, sep) && Apart(patch.to, sep)
    ensures Clean(before + sep + after, patch) <==> Clean(before, patch) && Clean(after, patch)
    decreases |before|
  {
    hide Clean, Contains, Apart, Find, Split;
    if Find(before, patch.to).Some? {
      var head, tail := Cut(before, patch.to);
      FindBefore(before, sep, after, patch.to);
      CleanCut(head, tail, patch);
      assert before + sep + after == head + patch.to + (tail + sep + after);
      CleanCut(head, tail + sep + after, patch);
      CleanAround(tail, sep, after, patch);
    } else {
      CleanUncut(before, patch);
      if Find(after, patch.to).Some? {
        var head, tail := Cut(after, patch.to);
        FindAfter(before, sep, after, patch.to);
        CleanCut(head, tail, patch);
        assert before + sep + after == (before + sep + head) + patch.to + tail;
        CleanCut(before + sep + head, tail, patch);
        FreeAround(before, sep, head, patch.from);
      } else {
        CleanUncut(after, patch);
        FindIsFirst(before, patch.to);
        FindIsFirst(after, patch.to);
        FreeAround(before, sep, after, patch.to);
        NotFound(before + sep + after, patch.to);
        CleanUncut(before + sep + after, patch);
        FreeAround(before, sep, after, patch.from);
      }
    }
  }

  lemma Cut(s: string, p: string) returns (head: string, tail: string)
    requires Find(s, p).Some?
    ensures s == head + p + tail && Find(s, p) == Some(|head|)
  {
    var i := Find(s, p).value;
    FindIsFirst(s, p);
    head, tail := s[..i], s[i + |p|..];
  }

  lemma CleanUncut(s: string, patch: Patch)
    requires Proper(patch) && Find(s, patch.to).None?
    ensures Clean(s, patch) <==> !Contains(s, patch.from)
  {
    FreeOfCons(s, [], patch.from);
    assert [s] + [] == [s];
  }

  lemma CleanCut(head: string, tail: string, patch: Patch)
    requires Proper(patch) && Find(head + patch.to + tail, patch.to) == Some(|head|)
    ensures Clean(head + patch.to + tail, patch) <==> !Contains(head, patch.from) && Clean(tail, patch)
  {
    SplitAt(head, patch.to, tail);
    FreeOfCons(head, Split(tail, patch.to), patch.from);
  }

  lemma FreeOfCons(piece: string, rest: seq<string>, p: string)
    ensures AllFree([piece] + rest, p) <==> !Contains(piece, p) && AllFree(rest, p)
  {
    if AllFree([piece] + rest, p) {
      assert !Contains(([piece] + rest)[0], p);
      forall k | 0 <= k < |rest| ensures !Contains(rest[k], p) {
        assert rest[k] == ([piece] + rest)[k + 1];
      }
    }
  }

  ghost predicate AllClean(pieces: seq<string>, patch: Patch)
    requires Proper(patch)
  {
    forall k :: 0 <= k < |pieces| ==> Clean(pieces[k], patch)
  }

  lemma {:induction false} CleanWeave(pieces: seq<string>, seps: seq<string>, patch: Patch)
    requires |pieces| == |seps| + 1 && Proper(patch)
    requires forall k :: 0 <= k < |seps| ==> seps[k] != "" && Apart(patch.from, seps[k]) && Apart(patch.to, seps[k])
    ensures Clean(Weave(pieces, seps), patch) <==> AllClean(pieces, patch)
    decreases |seps|
  {
    if seps != [] {
      CleanAround(pieces[0], seps[0], Weave(pieces[1..], seps[1..]), patch);
      CleanWeave(pieces[1..], seps[1..], patch);
    }
  }

  /** An independent patch leaves a patched text patched. */
  lemma KeepsClean(s: string, done: Patch, next: Patch)
    requires Proper(done) && Proper(next) && Independent(done, next) && Clean(s, done)
    ensures Clean(Apply(s, next), done)
  {
    ApplyRewritesSeparators(s, next);
    var pieces, seps :| Rewrites(s, Apply(s, next), next, pieces, seps);
    CleanWeave(pieces, seps, done);
    CleanWeave(pieces, Repeat(next.to, |seps|), done);
  }

  ghost predicate Compatible(patches: seq<Patch>) {
    && Usable(patches)
    && (forall k :: 0 <= k < |patches| ==> Unbordered(patches[k].to))
    && (forall j, k :: 0 <= j < k < |patches| ==> Independent(patches[j], patches[k]))
  }

  lemma {:induction false} KeepsCleanAll(s: string, done: Patch, patches: seq<Patch>)
    requires Proper(done) && Usable(patches) && Clean(s, done)
    requires forall k :: 0 <= k < |patches| ==> Independent(done, patches[k])
    ensures Clean(ApplyAll(s, patches), done)
    decreases |patches|
  {
    if patches != [] {
      KeepsClean(s, done, patches[0]);
      KeepsCleanAll(Apply(s, patches[0]), done, patches[1..]);
    }
  }

  lemma {:induction false} ApplyAllCleans(s: string, patches: seq<Patch>)
    requires Compatible(patches)
    ensures forall k :: 0 <= k < |patches| ==> Clean(ApplyAll(s, patches), patches[k])
    decreases |patches|
  {
    if patches != [] {
      var t := Apply(s, patches[0]);
      ApplyCleans(s, patches[0]);
      KeepsCleanAll(t, patches[0], patches[1..]);
      ApplyAllCleans(t, patches[1..]);
      forall k | 0 <= k < |patches|
        ensures Clean(ApplyAll(s, patches), patches[k])
      {
        if k > 0 {
          assert patches[k] == patches[1..][k - 1];
        }
      }
    }
  }

  lemma {:induction false} CleanForAllIsFixed(s: string, patches: seq<Patch>)
    requires Usable(patches) && forall k :: 0 <= k < |patches| ==> Clean(s, patches[k])
    ensures ApplyAll(s, patches) == s
    decreases |patches|
  {
    if patches != [] {
      CleanIsFixed(s, patches[0]);
      CleanForAllIsFixed(s, patches[1..]);
    }
  }

  /** Running a whole list of patches a second time changes nothing. */
  lemma ApplyAllIsIdempotent(s: string, patches: seq<Patch>)
    requires Compatible(patches)
    ensures ApplyAll(ApplyAll(s, patches), patches) == ApplyAll(s, patches)
  {
    ApplyAllCleans(s, patches);
    CleanForAllIsFixed(ApplyAll(s, patches), patches);
  }

  /** The loop of `patchFile` over the text it has read. */
  method PatchFile(content: string, patches: seq<Patch>) returns (fileContent: string)
    requires Usable(patches)
    ensures fileContent == ApplyAll(content, patches)
    ensures Compatible(patches) ==> ApplyAll(fileContent, patches) == fileContent
  {
    fileContent := content;
    for k := 0 to |patches|
      invariant ApplyAll(fileContent, patches[k..]) == ApplyAll(content, patches)
    {
      fileContent := Apply(fileContent, patches[k]);
      assert patches[k..][1..] == patches[k + 1..];
    }
    if Compatible(patches) {
      ApplyAllIsIdempotent(content, patches);
    }
  }

  /** With a bordered `to` a second run can change the text again: "abba" becomes "ababa", then "abaaba". */
  lemma BorderedTargetIsNotIdempotent()
    ensures var patch := Patch("ba", "aba");
            !Unbordered(patch.to) && Apply(Apply("abba", patch), patch) != Apply("abba", patch)
  {
    var patch := Patch("ba", "aba");
    assert patch.to[2..] == patch.to[..1];
    FirstRun();
    SecondRun();
  }

  lemma FirstRun()
    ensures Apply("abba", Patch("ba", "aba")) == "ababa"
  {
    var s := "abba";
    assert s[0..3] == ['a', 'b', 'b'] && s[1..4] == ['b', 'b', 'a'];
    NotFound(s, "aba");
    assert s[2..4] == ['b', 'a'] && s[0..2] == ['a', 'b'] && s[1..3] == ['b', 'b'];
    FindIs(s, "ba", 2);
    assert Split("", "ba") == [""];
    assert Split(s, "ba") == ["ab", ""];
    assert Pieces(s, Patch("ba", "aba")) == ["ab", ""] + SplitEach([], "ba");
  }

  lemma SecondRun()
    ensures |Apply("ababa", Patch("ba", "aba"))| == 6
  {
    var s := "ababa";
    assert s[0..3] == ['a', 'b', 'a'];
    FindIs(s, "aba", 0);
    assert s[3..] == ['b', 'a'] && s[..0] == "";
    assert Split("ba", "aba") == ["ba"];
    assert Split(s, "aba") == ["", "ba"];
    assert "ba"[0..2] == "ba";
    FindIs("ba", "ba", 0);
    assert "ba"[2..] == "" && "ba"[..0] == "";
    assert Split("", "ba") == [""] && Split("ba", "ba") == ["", ""];
    var tokens := ["", "ba"];
    assert tokens[1..] == ["ba"] && ["ba"][1..] == [];
    assert SplitEach(tokens, "ba") == [""] + (["", ""] + []) == ["", "", ""];
    assert ["", "", ""][1..] == ["", ""] && ["", ""][1..] == [""];
    assert Join([""], "aba") == "" && |Join(["", ""], "aba")| == 3 && |Join(["", "", ""], "aba")| == 6;
  }
}
