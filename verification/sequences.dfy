/** Lists of lists. */
module Sequences {
  function Flat<T>(lists: seq<seq<T>>): seq<T> {
    if lists == [] then [] else lists[0] + Flat(lists[1..])
  }

  lemma {:induction false} FlatAppend<T>(first: seq<seq<T>>, second: seq<seq<T>>)
    ensures Flat(first + second) == Flat(first) + Flat(second)
  {
    if first == [] {
      assert first + second == second;
    } else {
      assert (first + second)[1..] == first[1..] + second;
      FlatAppend(first[1..], second);
    }
  }

  lemma FlatOfOne<T>(list: seq<T>)
    ensures Flat([list]) == list
  {
    assert [list][1..] == [];
  }

  /** `[s[x:x + size] for x in range(0, len(s), size)]` */
  function Chunks<T>(s: seq<T>, size: nat): (chunks: seq<seq<T>>)
    requires size > 0
    ensures forall k :: 0 <= k < |chunks| ==> 1 <= |chunks[k]| <= size
  {
    if s == [] then [] else if |s| <= size then [s] else [s[..size]] + Chunks(s[size..], size)
  }

  /** Nothing is lost, repeated or reordered by cutting a list up. */
  lemma {:induction false} ChunksAreTheList<T>(s: seq<T>, size: nat)
    requires size > 0
    ensures Flat(Chunks(s, size)) == s
    ensures forall k :: 0 <= k < |Chunks(s, size)| - 1 ==> |Chunks(s, size)[k]| == size
  {
    if |s| > size {
      ChunksAreTheList(s[size..], size);
      assert Chunks(s, size)[1..] == Chunks(s[size..], size);
      assert s == s[..size] + s[size..];
    } else if s != [] {
      assert Chunks(s, size)[1..] == [];
    }
  }
}
