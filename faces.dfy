/** Faces of a simplicial complex: finite sequences of integer vertex labels. */
module Faces {

  /** A face as the program stores it: its vertex labels in stored order. */
  type Face = seq<int>

  /** The face left after deleting the vertex at position `j`. */
  function Delete(f: Face, j: nat): (r: Face)
    requires j < |f|
    ensures |r| == |f| - 1
    ensures forall k :: 0 <= k < j ==> r[k] == f[k]
    ensures forall k :: j <= k < |r| ==> r[k] == f[k + 1]
  {
    f[..j] + f[j + 1..]
  }

  /** Vertices in strictly ascending order: sorted, with no vertex repeated. */
  predicate StrictlySorted(f: Face) {
    forall i, j :: 0 <= i < j < |f| ==> f[i] < f[j]
  }

  /** No element occurs twice. */
  predicate NoDup<T(==)>(s: seq<T>) {
    forall i, j :: 0 <= i < j < |s| ==> s[i] != s[j]
  }

  /** The set of elements of a sequence. */
  function Elems<T>(s: seq<T>): set<T> {
    set x | x in s
  }

  /** Every stored face with more than one vertex has each single-vertex deletion stored too. */
  predicate DownwardClosed(fs: seq<Face>) {
    forall i, j :: 0 <= i < |fs| && 0 <= j < |fs[i]| && |fs[i]| > 1 ==> Delete(fs[i], j) in fs
  }

  function Min(a: int, b: int): int {
    if a <= b then a else b
  }

  function Max(a: int, b: int): int {
    if a <= b then b else a
  }

  /** Deleting a later position of a face commutes with putting a vertex in front. */
  lemma DeleteCons(a: int, g: Face, i: nat)
    requires 0 < i <= |g|
    ensures Delete([a] + g, i) == [a] + Delete(g, i - 1)
  {
    assert ([a] + g)[..i] == [a] + g[..i - 1];
    assert ([a] + g)[i + 1..] == g[i..];
  }

  /** The facets of a face with distinct vertices are pairwise distinct. */
  lemma DeletionsDistinct(f: Face, j: nat, k: nat)
    requires StrictlySorted(f) && j < k < |f|
    ensures Delete(f, j) != Delete(f, k)
  {
    assert Delete(f, j)[j] == f[j + 1];
    assert Delete(f, k)[j] == f[j];
  }

  /** Deleting a vertex from a face with distinct ascending vertices keeps that property. */
  lemma DeleteStrictlySorted(f: Face, j: nat)
    requires StrictlySorted(f) && j < |f|
    ensures StrictlySorted(Delete(f, j))
  {
    var d := Delete(f, j);
    forall a, b | 0 <= a < b < |d|
      ensures d[a] < d[b]
    {
      var a' := if a < j then a else a + 1;
      var b' := if b < j then b else b + 1;
      assert d[a] == f[a'] && d[b] == f[b'];
    }
  }
}
