/** The patches of the post-install script itself: running the script again leaves the patched files as they are. */
module InstallPatches {
  import opened PatchFile
  import opened Strings

  // How to see, without looking at every alignment, that a string has no border or that two cannot overlap.

  /** A border ends with the last character. */
  lemma LastIsUnique(p: string)
    requires p != "" && p[|p| - 1] !in p[..|p| - 1]
    ensures Unbordered(p)
  {
    forall k | 0 < k < |p| ensures p[k..] != p[..|p| - k] {
      assert p[k..][|p| - k - 1] == p[|p| - 1];
      assert p[..|p| - k][|p| - k - 1] == p[..|p| - 1][|p| - k - 1];
    }
  }

  /** A border of more than one character starts with the first two. */
  lemma StartIsUnique(p: string)
    requires |p| > 1 && p[0] != p[|p| - 1] && forall k :: 0 < k < |p| - 1 ==> p[k] != p[0] || p[k + 1] != p[1]
    ensures Unbordered(p)
  {
    forall k | 0 < k < |p| ensures p[k..] != p[..|p| - k] {
      assert p[k..][0] == p[k] && p[..|p| - k][0] == p[0];
      if k < |p| - 1 {
        assert p[k..][1] == p[k + 1] && p[..|p| - k][1] == p[1];
      }
    }
  }

  /**
   A position in each string whose character the other string has nowhere else; where these two meet, the
   strings differ at distance `d`; and neither string ends in what stands before the other's position.
   */
  ghost predicate Marked(p: string, i: int, q: string, j: int, d: nat) {
    && 0 <= i && i + d < |p| && 0 <= j && j + d < |q| && p[i + d] != q[j + d]
    && (forall m :: 0 <= m < |p| && m != i ==> p[m] != q[j])
    && (forall m :: 0 <= m < |q| && m != j ==> q[m] != p[i])
    && (forall m :: 0 <= m < j ==> q[m] != p[|p| - 1])
    && (forall m :: 0 <= m < i ==> p[m] != q[|q| - 1])
  }

  lemma MarkedIsApart(p: string, i: int, q: string, j: int, d: nat)
    requires Marked(p, i, q, j, d)
    ensures Apart(p, q)
  {
    forall k | -|q| < k < |p| ensures Differ(p, q, k) {
      var m := if j + k == i then i + d
               else if 0 <= j + k < |p| then j + k
               else if 0 <= i - k < |q| then i
               else if j + k < 0 then |q| - 1 + k
               else |p| - 1;
      assert 0 <= m < |p| && 0 <= m - k < |q| && p[m] != q[m - k];
    }
  }

  // The theme of the charts: each division by 2 of a variable is put into `calc(...)`.

  function Divided(name: string): Patch {
    Patch("$" + name + " / 2", "calc($" + name + " / 2)")
  }

  ghost predicate Name(s: string) {
    '$' !in s && ')' !in s
  }

  lemma DividedIsUnbordered(name: string)
    requires Name(name)
    ensures Unbordered(Divided(name).to)
  {
    var to := Divided(name).to;
    assert to[..|to| - 1] == "calc($" + name + " / 2";
    LastIsUnique(to);
  }

  lemma DividedMarks(name: string)
    requires Name(name)
    ensures |Divided(name).from| == |name| + 5 && |Divided(name).to| == |name| + 11
    ensures var from := Divided(name).from;
        from[0] == '$' && from[|from| - 1] == '2' && forall m :: 0 < m < |from| ==> from[m] != '$'
    ensures var to := Divided(name).to;
        (forall m :: 0 <= m < 5 ==> to[m] != '2' && to[m] != ')') && to[5] == '$' && to[|to| - 1] == ')'
                                        && forall m :: 0 <= m < |to| && m != 5 ==> to[m] != '$'
    ensures forall d :: 0 <= d < |name| ==> Divided(name).from[1 + d] == name[d] == Divided(name).to[6 + d]
  {
    assert Divided(name).from == ["$"[0]] + (name + " / 2");
    assert Divided(name).to == "calc($" + (name + " / 2)");
  }

  lemma DividedAreIndependent(a: string, b: string, d: nat)
    requires Name(a) && Name(b) && d < |a| && d < |b| && a[d] != b[d]
    ensures Independent(Divided(a), Divided(b))
  {
    hide Divided, Apart;
    DividedMarks(a);
    DividedMarks(b);
    var p, q := Divided(a), Divided(b);
    MarkedIsApart(p.from, 0, q.from, 0, 1 + d);
    MarkedIsApart(p.from, 0, q.to, 5, 1 + d);
    MarkedIsApart(p.to, 5, q.from, 0, 1 + d);
    MarkedIsApart(p.to, 5, q.to, 5, 1 + d);
  }

  function Theme(): seq<Patch> {
    [Divided("legendItemVerticalPadding"), Divided("echLegendRowGap"), Divided("euiBorderRadius")]
  }

  lemma ThemeIsCompatible()
    ensures Compatible(Theme())
  {
    hide Divided, Independent, Unbordered;
    var a, b, c := "legendItemVerticalPadding", "echLegendRowGap", "euiBorderRadius";
    assert Name(a) && Name(b) && Name(c);
    DividedIsUnbordered(a);
    DividedIsUnbordered(b);
    DividedIsUnbordered(c);
    DividedAreIndependent(a, b, 0);
    DividedAreIndependent(a, c, 0);
    DividedAreIndependent(b, c, 1);
    DividedIsProper(a);
    DividedIsProper(b);
    DividedIsProper(c);
  }

  lemma DividedIsProper(name: string)
    ensures Proper(Divided(name))
  {
  }

  // The parser of numbers in rison: large integers are kept exact.

  function Return(): string { "return isFinite" }

  function Compare(): string { "(s) && (s > Num" }

  function Finite(): string { Return() + Compare() }

  function Above(): string { "ber.MAX_SAFE_INTEGER || s < " }

  function Below(): string { "Number.MIN_SAFE_INTEGER) ? B" }

  function Exact(): string { "igInt(s) : Number(s)" }

  function IsFinite(): string { Finite() + (Above() + (Below() + Exact())) }

  function Number(): Patch { Patch("return Number(s)", IsFinite()) }

  function Entry(): string { "s = {\n            bigint: x " }

  function Writer(): string { "=> x.toString()," }

  function WithEntry(): string { Entry() + Writer() }

  function BigInt(): Patch { Patch("s = {", WithEntry()) }

  /** After an `r` of the text comes no `e`, and neither braces nor commas are in it. */
  ghost predicate Part(s: string) {
    && (forall k :: 0 <= k < |s| ==> s[k] != '{' && s[k] != ',')
    && (forall k :: 0 <= k < |s| && s[k] == 'r' ==> k + 1 < |s| && s[k + 1] != 'e')
  }

  lemma ReturnIsPart()
    ensures Return()[0] == 'r' && Return()[1] == 'e' && |Return()| == 15 && Part(Return()[1..])
  {
    var s, t := Return(), Return()[1..];
    assert forall k :: 0 < k < |s| && s[k] == 'r' ==> k == 4;
    assert forall k :: 0 <= k < |t| ==> t[k] == s[k + 1];
    assert s[5] == 'n';
  }

  lemma CompareIsPart()
    ensures Compare()[12] == 'N' && |Compare()| == 15 && Part(Compare())
  {
  }

  lemma FiniteIsPart()
    ensures Finite()[0] == 'r' && Finite()[1] == 'e' && Finite()[27] == 'N' && |Finite()| == 30 && Part(Finite()[1..])
  {
    hide Part, Return, Compare;
    ReturnIsPart();
    CompareIsPart();
    PartsAreParts(Return()[1..], Compare());
    assert Finite()[1..] == Return()[1..] + Compare();
  }

  lemma AboveIsPart()
    ensures Part(Above())
  {
    assert forall k :: 0 <= k < |Above()| && Above()[k] == 'r' ==> k == 2;
  }

  lemma BelowIsPart()
    ensures Part(Below())
  {
    assert forall k :: 0 <= k < |Below()| && Below()[k] == 'r' ==> k == 5;
  }

  lemma ExactIsPart()
    ensures Part(Exact()) && |Exact()| > 0 && Exact()[|Exact()| - 1] == ')'
  {
    assert forall k :: 0 <= k < |Exact()| && Exact()[k] == 'r' ==> k == 16;
  }

  lemma PartsAreParts(a: string, b: string)
    requires Part(a) && Part(b)
    ensures Part(a + b)
  {
  }

  lemma NumberMarks()
    ensures |IsFinite()| > 30 && IsFinite()[0] == 'r' && IsFinite()[1] == 'e' && IsFinite()[27] == 'N'
        && IsFinite()[|IsFinite()| - 1] == ')'
    ensures Part(IsFinite()[1..])
  {
    hide Part, Finite, Above, Below, Exact;
    FiniteIsPart();
    AboveIsPart();
    BelowIsPart();
    ExactIsPart();
    PartsAreParts(Below(), Exact());
    PartsAreParts(Above(), Below() + Exact());
    PartsAreParts(Finite()[1..], Above() + (Below() + Exact()));
    assert IsFinite()[1..] == Finite()[1..] + (Above() + (Below() + Exact()));
  }

  lemma NumberIsUnbordered()
    ensures Unbordered(IsFinite())
  {
    hide IsFinite;
    NumberMarks();
    var to := IsFinite();
    assert forall k :: 0 < k < |to| - 1 ==> to[1..][k - 1] == to[k] && to[1..][k] == to[k + 1];
    StartIsUnique(to);
  }

  lemma EntryMarks()
    ensures Entry()[0] == 's' && Entry()[1] == ' ' && Entry()[4] == '{' && |Entry()| > 5
    ensures forall k :: 0 < k < |Entry()| ==> Entry()[k] != 's' && Entry()[k] != 'N' && (k == 4 || Entry()[k] != '{')
    ensures forall k :: 0 <= k < 4 ==> Entry()[k] != ')'
  {
  }

  lemma WriterMarks()
    ensures forall k :: 0 <= k < |Writer()| ==> Writer()[k] != 's' && Writer()[k] != 'N' && Writer()[k] != '{'
    ensures |Writer()| > 0 && Writer()[|Writer()| - 1] == ','
  {
  }

  lemma BigIntMarks()
    ensures |WithEntry()| > 5 && WithEntry()[0] == 's' && WithEntry()[1] == ' ' && WithEntry()[4] == '{'
        && WithEntry()[|WithEntry()| - 1] == ','
    ensures forall k :: 0 < k < |WithEntry()| ==> WithEntry()[k] != 's'
    ensures forall k :: 0 <= k < 4 ==> WithEntry()[k] != ')'
    ensures forall k :: 0 <= k < |WithEntry()| ==> WithEntry()[k] != 'N' && (k == 4 || WithEntry()[k] != '{')
  {
    hide Entry, Writer;
    EntryMarks();
    WriterMarks();
    assert forall k :: 0 <= k < 5 ==> WithEntry()[k] == Entry()[k];
  }

  lemma BigIntIsUnbordered()
    ensures Unbordered(WithEntry())
  {
    hide WithEntry;
    BigIntMarks();
    StartIsUnique(WithEntry());
  }

  lemma RisonIsApart(p: string, i: int, q: string)
    requires 0 <= i < |p| && p[i] == 'N' && p[|p| - 1] == ')' && forall k :: 0 <= k < |p| ==> p[k] != '{' && p[k] != ','
    requires |q| >= 5 && q[4] == '{' && (q[|q| - 1] == '{' || q[|q| - 1] == ',')
    requires forall k :: 0 <= k < 4 ==> q[k] != ')'
    requires forall k :: 0 <= k < |q| ==> q[k] != 'N' && (k == 4 || q[k] != '{')
    ensures Apart(p, q)
  {
    MarkedIsApart(p, i, q, 4, 0);
  }

  lemma RisonIsCompatible()
    ensures Compatible([Number(), BigInt()])
  {
    hide Unbordered, Apart, IsFinite, WithEntry;
    NumberIsUnbordered();
    BigIntIsUnbordered();
    NumberMarks();
    BigIntMarks();
    var p, q := IsFinite(), WithEntry();
    assert forall k :: 0 < k < |p| ==> p[1..][k - 1] == p[k];
    RisonIsApart(Number().from, 7, BigInt().from);
    RisonIsApart(Number().from, 7, q);
    RisonIsApart(p, 27, BigInt().from);
    RisonIsApart(p, 27, q);
  }

  // Fonts and the types of axios.

  const FONT := Patch("(30em / 14)", "calc(30em / 14)")

  const AXIOS := Patch("[Key in Method as Lowercase<Key>]: AxiosHeaders;", "[Key in Method]: AxiosHeaders;")

  lemma SingleIsCompatible()
    ensures Compatible([FONT]) && Compatible([AXIOS])
  {
    LastIsUnique(FONT.to);
    LastIsUnique(AXIOS.to);
  }

  /** Divisions are put into `calc`. */
  lemma DivisionsAreWrapped(name: string)
    ensures Divided(name).to == "calc(" + Divided(name).from + ")" && FONT.to == "calc" + FONT.from
  {
  }

  /** The writer of large integers comes first in its table. */
  lemma WriterComesFirst()
    ensures BigInt().from <= BigInt().to
  {
    hide Writer;
    assert BigInt().from == Entry()[..5];
  }

  /** Every list of patches the script applies. */
  ghost predicate Installed(patches: seq<Patch>) {
    patches == [FONT] || patches == Theme() || patches == [Number(), BigInt()] || patches == [AXIOS]
  }

  /** Installing again changes none of the patched files. */
  lemma InstallingAgain(s: string, patches: seq<Patch>)
    requires Installed(patches)
    ensures Usable(patches) && ApplyAll(ApplyAll(s, patches), patches) == ApplyAll(s, patches)
  {
    hide ApplyAll;
    SingleIsCompatible();
    ThemeIsCompatible();
    RisonIsCompatible();
    ApplyAllIsIdempotent(s, patches);
  }
}
