/**
  Closing a list of faces under single-vertex deletion (`big_to_small`).

  Repeated full passes over the stored faces append every non-empty single-vertex
  deletion that is not already stored, compared by exact sequence equality; the
  loop stops after a pass that appends nothing. Every face ever stored is a
  subsequence of an input face, so the set of subsequences of the input faces
  bounds the growth and gives the termination measure.
*/
module Closure {
  import opened Faces

  /** All subsequences of `s` (keep-or-drop each position), the empty one included. */
  function SubSeqs(s: Face): (r: set<Face>)
    ensures [] in r
    decreases |s|
  {
    if s == [] then {[]}
    else
      var rest := SubSeqs(s[1..]);
      rest + set t | t in rest :: [s[0]] + t
  }

  /** Every subsequence of an input face. */
  function Universe(faces: seq<Face>): set<Face> {
    set k, t | 0 <= k < |faces| && t in SubSeqs(faces[k]) :: t
  }

  /** A set of faces closed under non-empty single-vertex deletion. */
  ghost predicate ClosedSet(c: set<Face>) {
    forall f, j :: f in c && 0 <= j < |f| && |f| > 1 ==> Delete(f, j) in c
  }

  lemma {:induction false} SelfInSubSeqs(s: Face)
    ensures s in SubSeqs(s)
    decreases |s|
  {
    if s != [] {
      SelfInSubSeqs(s[1..]);
      assert s == [s[0]] + s[1..];
    }
  }

  lemma {:induction false} SubSeqsShorter(s: Face, t: Face)
    requires t in SubSeqs(s)
    ensures |t| <= |s|
    decreases |s|
  {
    if s != [] {
      var rest := SubSeqs(s[1..]);
      if t !in rest {
        var t' :| t' in rest && t == [s[0]] + t';
        SubSeqsShorter(s[1..], t');
      } else {
        SubSeqsShorter(s[1..], t);
      }
    }
  }

  /** A single-vertex deletion of a subsequence of `s` is again a subsequence of `s`. */
  lemma {:induction false} DeleteInSubSeqs(s: Face, t: Face, j: nat)
    requires t in SubSeqs(s) && j < |t|
    ensures Delete(t, j) in SubSeqs(s)
    decreases |s|
  {
    assert s != [];
    var rest := SubSeqs(s[1..]);
    if t in rest {
      DeleteInSubSeqs(s[1..], t, j);
    } else {
      var t' :| t' in rest && t == [s[0]] + t';
      if j == 0 {
        assert Delete(t, 0) == t';
      } else {
        DeleteInSubSeqs(s[1..], t', j - 1);
        assert Delete(t, j) == [s[0]] + Delete(t', j - 1);
      }
    }
  }

  /** A proper subsequence of `s` is a subsequence of one of the facets of `s`. */
  lemma {:induction false} ProperSubSeqOfFacet(s: Face, t: Face) returns (j: nat)
    requires t in SubSeqs(s) && t != s
    ensures j < |s| && t in SubSeqs(Delete(s, j))
    decreases |s|
  {
    assert s != [];
    var rest := SubSeqs(s[1..]);
    assert Delete(s, 0) == s[1..];
    if t in rest {
      j := 0;
    } else {
      var t' :| t' in rest && t == [s[0]] + t';
      assert t' != s[1..] by { assert s == [s[0]] + s[1..]; }
      var i := ProperSubSeqOfFacet(s[1..], t');
      j := i + 1;
      var d := Delete(s, j);
      assert s == [s[0]] + s[1..];
      DeleteCons(s[0], s[1..], j);
      assert d == [s[0]] + Delete(s[1..], i);
      assert d[1..] == Delete(s[1..], i);
      assert t == [d[0]] + t';
    }
  }

  /** A closed set holding `s` holds every non-empty subsequence of `s`. */
  lemma {:induction false} SubSeqsInClosedSet(c: set<Face>, s: Face, t: Face)
    requires ClosedSet(c) && s in c && t in SubSeqs(s) && t != []
    ensures t in c
    decreases |s|
  {
    if t != s {
      var j := ProperSubSeqOfFacet(s, t);
      SubSeqsShorter(Delete(s, j), t);
      SubSeqsInClosedSet(c, Delete(s, j), t);
    }
  }

  /**
    Minimality: any set closed under deletion that holds the input faces holds every
    non-empty face of the universe, hence every non-empty face the closure returns.
  */
  lemma UniverseInClosedSet(faces: seq<Face>, c: set<Face>, t: Face)
    requires ClosedSet(c) && Elems(faces) <= c
    requires t in Universe(faces) && t != []
    ensures t in c
  {
    var k :| 0 <= k < |faces| && t in SubSeqs(faces[k]);
    assert faces[k] in Elems(faces);
    SubSeqsInClosedSet(c, faces[k], t);
  }

  /** Every subsequence of a face with strictly ascending vertices is strictly ascending, and uses only its vertices. */
  lemma {:induction false} SubSeqsStrictlySorted(s: Face, t: Face)
    requires StrictlySorted(s) && t in SubSeqs(s)
    ensures StrictlySorted(t)
    ensures forall x :: x in t ==> x in s
    decreases |s|
  {
    if s != [] {
      var rest := SubSeqs(s[1..]);
      if t in rest {
        SubSeqsStrictlySorted(s[1..], t);
      } else {
        var t' :| t' in rest && t == [s[0]] + t';
        SubSeqsStrictlySorted(s[1..], t');
        forall a, b | 0 <= a < b < |t|
          ensures t[a] < t[b]
        {
          if a == 0 {
            assert t[b] == t'[b - 1] && t'[b - 1] in t';
            var m :| 1 <= m < |s| && s[m] == t[b];
          } else {
            assert t[a] == t'[a - 1] && t[b] == t'[b - 1];
          }
        }
      }
    }
  }

  /** When every input face is strictly ascending, so is every face of the universe. */
  lemma UniverseStrictlySorted(faces: seq<Face>, t: Face)
    requires forall f :: f in faces ==> StrictlySorted(f)
    requires t in Universe(faces)
    ensures StrictlySorted(t)
  {
    var k :| 0 <= k < |faces| && t in SubSeqs(faces[k]);
    SubSeqsStrictlySorted(faces[k], t);
  }

  /** The faces left by deleting one vertex of `f`. */
  function Facets(f: Face): set<Face> {
    set j | 0 <= j < |f| :: Delete(f, j)
  }

  /** What every stage of the closure loop keeps: the input as a prefix, appended faces non-empty and new, all within the universe. */
  ghost predicate Growing(faces: seq<Face>, fset: seq<Face>) {
    faces <= fset &&
    (forall k :: |faces| <= k < |fset| ==> fset[k] != [] && fset[k] !in fset[..k]) &&
    Elems(fset) <= Universe(faces) &&
    (DownwardClosed(faces) ==> fset == faces)
  }

  /**
    The closure loop. The input stays a prefix; each appended face is non-empty and new
    at the moment it is appended; every stored face is a subsequence of an input face;
    on return every stored face of size > 1 has all its facets stored; and an input that
    is already closed comes back unchanged.
  */
  method BigToSmall(faces: seq<Face>) returns (fset: seq<Face>)
    ensures faces <= fset
    ensures forall k :: |faces| <= k < |fset| ==> fset[k] != [] && fset[k] !in fset[..k]
    ensures NoDup(faces) ==> NoDup(fset)
    ensures Elems(fset) <= Universe(faces)
    ensures DownwardClosed(fset)
    ensures DownwardClosed(faces) ==> fset == faces
  {
    fset := faces;
    forall x | x in fset
      ensures x in Universe(faces)
    {
      var k :| 0 <= k < |faces| && faces[k] == x;
      SelfInSubSeqs(faces[k]);
    }
    while true
      invariant Growing(faces, fset)
      decreases Universe(faces) - Elems(fset)
    {
      var additionsMade := false;
      ghost var start := fset;
      var n := |fset|;
      var i := 0;
      while i < n
        invariant 0 <= i <= n <= |fset|
        invariant start <= fset && n == |start|
        invariant Growing(faces, fset)
        invariant additionsMade <==> |fset| > n
        invariant forall a, j :: 0 <= a < i && 0 <= j < |fset[a]| && |fset[a]| > 1 ==> Delete(fset[a], j) in fset
      {
        ghost var before := fset;
        var added;
        fset, added := AppendFacets(faces, fset, i);
        additionsMade := additionsMade || added;
        forall a, j | 0 <= a < i && 0 <= j < |fset[a]| && |fset[a]| > 1
          ensures Delete(fset[a], j) in fset
        {
          assert fset[a] == before[a];
          assert Delete(before[a], j) in before;
        }
        i := i + 1;
      }
      if !additionsMade {
        assert fset == start;
        break;
      }
      assert fset[n] in Elems(fset) && fset[n] !in Elems(start) by {
        assert fset[n] !in fset[..n];
        assert fset[..n] == start;
      }
    }
    if NoDup(faces) {
      forall a, b | 0 <= a < b < |fset|
        ensures fset[a] != fset[b]
      {
        if b >= |faces| {
          assert fset[a] in fset[..b];
        }
      }
    }
  }

  /** Appending a new non-empty facet of a stored face keeps the closure's invariant. */
  lemma GrowByFacet(faces: seq<Face>, fset: seq<Face>, i: nat, j: nat)
    requires Growing(faces, fset) && i < |fset| && j < |fset[i]|
    requires Delete(fset[i], j) !in fset && Delete(fset[i], j) != []
    ensures Growing(faces, fset + [Delete(fset[i], j)])
  {
    var face, f := fset[i], Delete(fset[i], j);
    assert f in Universe(faces) by {
      assert face in Elems(fset);
      var k :| 0 <= k < |faces| && face in SubSeqs(faces[k]);
      DeleteInSubSeqs(faces[k], face, j);
    }
    var g := fset + [f];
    assert g[..|fset|] == fset;
    forall k | |faces| <= k < |g|
      ensures g[k] != [] && g[k] !in g[..k]
    {
      if k < |fset| {
        assert g[..k] == fset[..k];
      }
    }
  }

  /** One face of the pass: each non-empty facet of `fset[i]` that is not yet stored is appended. */
  method AppendFacets(faces: seq<Face>, fset0: seq<Face>, i: nat) returns (fset: seq<Face>, added: bool)
    requires i < |fset0| && Growing(faces, fset0)
    ensures fset0 <= fset && Growing(faces, fset)
    ensures added <==> |fset| > |fset0|
    ensures |fset0[i]| > 1 ==> forall j :: 0 <= j < |fset0[i]| ==> Delete(fset0[i], j) in fset
    ensures Elems(fset) <= Elems(fset0) + Facets(fset0[i])
  {
    fset := fset0;
    added := false;
    var face := fset[i];
    var j := 0;
    while j < |face|
      invariant 0 <= j <= |face|
      invariant fset0 <= fset && Growing(faces, fset)
      invariant added <==> |fset| > |fset0|
      invariant forall j' :: 0 <= j' < j && |face| > 1 ==> Delete(face, j') in fset
      invariant Elems(fset) <= Elems(fset0) + Facets(face)
    {
      var f := face[..j] + face[j + 1..];
      assert f == Delete(face, j);
      if f !in fset && |f| > 0 {
        GrowByFacet(faces, fset, i, j);
        assert f in Facets(face);
        fset := fset + [f];
        added := true;
      }
      j := j + 1;
    }
  }
}
