/**
  Signed facets of a face (`differential`) and the boundary matrix between two
  consecutive dimension strata (`get_matrix`).

  The boundary of a face (v0, ..., vd) is the alternating sum over i of (-1)^i times
  the face with position i deleted. Extending it linearly to formal sums of faces
  gives the chain-level boundary, and applying it twice gives the zero chain.
*/
module Boundary {
  import opened Faces

  /** (-1)^i */
  function Sign(i: nat): (s: int)
    ensures s == 1 || s == -1
  {
    if i % 2 == 0 then 1 else -1
  }

  /** Consecutive positions have opposite signs. */
  lemma SignStep(i: nat)
    ensures Sign(i + 1) == -Sign(i)
  {
    assert (i + 1) % 2 == 0 <==> i % 2 == 1;
  }

  /** A formal integer combination of faces, one signed term per entry. */
  type Chain = seq<(int, Face)>

  /**
    The differential loop from position `i` on, where `c` is the sign variable before
    it is flipped for position `i`: each step flips the sign and records the face with
    position `i` deleted.
  */
  function DifferentialFrom(gen: Face, i: nat, c: int): (r: Chain)
    requires i <= |gen|
    ensures |r| == |gen| - i
    ensures forall k :: 0 <= k < |r| ==> r[k] == (if k % 2 == 0 then -c else c, Delete(gen, i + k))
    decreases |gen| - i
  {
    if i == |gen| then []
    else
      var c' := c * -1;
      [(c', Delete(gen, i))] + DifferentialFrom(gen, i + 1, c')
  }

  /** The signed facets of `gen`; the sign variable starts at -1 and is flipped before each entry. */
  function Differential(gen: Face): (r: Chain)
    ensures |r| == |gen|
    ensures forall i :: 0 <= i < |r| ==> r[i] == (Sign(i), Delete(gen, i))
  {
    DifferentialFrom(gen, 0, -1)
  }

  /** Sum of the coefficients of the terms on face `h`. */
  function Coef(ch: Chain, h: Face): int {
    if ch == [] then 0
    else (if ch[0].1 == h then ch[0].0 else 0) + Coef(ch[1..], h)
  }

  /** Every coefficient multiplied by `k`. */
  function Scale(k: int, ch: Chain): (r: Chain)
    ensures |r| == |ch|
    ensures forall i :: 0 <= i < |r| ==> r[i] == (k * ch[i].0, ch[i].1)
  {
    if ch == [] then [] else [(k * ch[0].0, ch[0].1)] + Scale(k, ch[1..])
  }

  /** Vertex `a` put in front of every face. */
  function Prepend(a: int, ch: Chain): (r: Chain)
    ensures |r| == |ch|
    ensures forall i :: 0 <= i < |r| ==> r[i] == (ch[i].0, [a] + ch[i].1)
  {
    if ch == [] then [] else [(ch[0].0, [a] + ch[0].1)] + Prepend(a, ch[1..])
  }

  /** The boundary extended linearly to formal sums. */
  function ChainBoundary(ch: Chain): Chain {
    if ch == [] then [] else Scale(ch[0].0, Differential(ch[0].1)) + ChainBoundary(ch[1..])
  }

  lemma {:induction false} CoefAppend(a: Chain, b: Chain, h: Face)
    ensures Coef(a + b, h) == Coef(a, h) + Coef(b, h)
  {
    if a != [] {
      assert (a + b)[1..] == a[1..] + b;
      CoefAppend(a[1..], b, h);
    } else {
      assert a + b == b;
    }
  }

  lemma {:induction false} CoefScale(k: int, ch: Chain, h: Face)
    ensures Coef(Scale(k, ch), h) == k * Coef(ch, h)
  {
    if ch != [] {
      CoefScale(k, ch[1..], h);
      assert Scale(k, ch)[1..] == Scale(k, ch[1..]);
      var c0 := if ch[0].1 == h then ch[0].0 else 0;
      assert Coef(Scale(k, ch), h) == k * c0 + k * Coef(ch[1..], h);
      assert k * c0 + k * Coef(ch[1..], h) == k * (c0 + Coef(ch[1..], h));
    }
  }

  /** Only the faces that start with `a` get a coefficient after prepending `a`. */
  lemma {:induction false} CoefPrepend(a: int, ch: Chain, h: Face)
    ensures Coef(Prepend(a, ch), h) == if |h| > 0 && h[0] == a then Coef(ch, h[1..]) else 0
  {
    if ch != [] {
      CoefPrepend(a, ch[1..], h);
      assert Prepend(a, ch)[1..] == Prepend(a, ch[1..]);
      var f := ch[0].1;
      if |h| > 0 && h[0] == a {
        assert ([a] + f == h) <==> (f == h[1..]) by {
          if f == h[1..] { assert h == [h[0]] + h[1..]; }
          if [a] + f == h { assert f == ([a] + f)[1..]; }
        }
      } else {
        assert ([a] + f)[0] == a;
      }
    }
  }

  lemma {:induction false} ChainBoundaryAppend(a: Chain, b: Chain)
    ensures ChainBoundary(a + b) == ChainBoundary(a) + ChainBoundary(b)
  {
    if a == [] {
      assert a + b == b;
    } else {
      assert (a + b)[1..] == a[1..] + b;
      ChainBoundaryAppend(a[1..], b);
    }
  }

  lemma {:induction false} CoefChainBoundaryScale(k: int, ch: Chain, h: Face)
    ensures Coef(ChainBoundary(Scale(k, ch)), h) == k * Coef(ChainBoundary(ch), h)
  {
    if ch != [] {
      var sc := Scale(k, ch);
      assert sc[1..] == Scale(k, ch[1..]);
      var d := Differential(ch[0].1);
      var c := ch[0].0;
      CoefAppend(Scale(k * c, d), ChainBoundary(sc[1..]), h);
      CoefAppend(Scale(c, d), ChainBoundary(ch[1..]), h);
      CoefScale(k * c, d, h);
      CoefScale(c, d, h);
      CoefChainBoundaryScale(k, ch[1..], h);
      var x := Coef(d, h);
      var y := Coef(ChainBoundary(ch[1..]), h);
      assert Coef(ChainBoundary(sc), h) == (k * c) * x + k * y;
      assert Coef(ChainBoundary(ch), h) == c * x + y;
      Distribute(k, c, x, y);
    }
  }

  lemma Distribute(k: int, c: int, x: int, y: int)
    ensures (k * c) * x + k * y == k * (c * x + y)
  {
    calc {
      (k * c) * x + k * y;
      k * (c * x) + k * y;
      k * (c * x + y);
    }
  }

  /** The differential of a face with a vertex in front, in terms of the differential of the rest. */
  lemma DifferentialCons(a: int, g: Face)
    ensures Differential([a] + g) == [(1, g)] + Prepend(a, Scale(-1, Differential(g)))
  {
    var lhs := Differential([a] + g);
    var rhs := [(1, g)] + Prepend(a, Scale(-1, Differential(g)));
    forall i | 0 <= i < |lhs|
      ensures lhs[i] == rhs[i]
    {
      DifferentialConsAt(a, g, i);
    }
  }

  /** Term `i` of the differential of a face with a vertex in front. */
  lemma DifferentialConsAt(a: int, g: Face, i: nat)
    requires i <= |g|
    ensures Differential([a] + g)[i] == ([(1, g)] + Prepend(a, Scale(-1, Differential(g))))[i]
  {
    if i == 0 {
      assert Delete([a] + g, 0) == g;
    } else {
      DeleteCons(a, g, i);
      SignStep(i - 1);
      var p := Scale(-1, Differential(g));
      assert p[i - 1] == (-1 * Sign(i - 1), Delete(g, i - 1));
      assert Prepend(a, p)[i - 1] == (p[i - 1].0, [a] + p[i - 1].1);
    }
  }

  /**
    Boundary of a formal sum whose faces all start with `a`: the terms lose `a`, and
    what remains is `a` prepended to the boundary of the original sum, with opposite sign.
  */
  lemma {:induction false} CoefChainBoundaryPrepend(a: int, ch: Chain, h: Face)
    ensures Coef(ChainBoundary(Prepend(a, ch)), h)
         == Coef(ch, h) - (if |h| > 0 && h[0] == a then Coef(ChainBoundary(ch), h[1..]) else 0)
  {
    if ch != [] {
      var c := ch[0].0;
      var f := ch[0].1;
      var pc := Prepend(a, ch);
      assert pc[0] == (c, [a] + f) && pc[1..] == Prepend(a, ch[1..]);
      var head := Scale(c, Differential([a] + f));
      assert ChainBoundary(pc) == head + ChainBoundary(pc[1..]);
      CoefAppend(head, ChainBoundary(pc[1..]), h);
      CoefChainBoundaryPrepend(a, ch[1..], h);
      CoefPrependedHead(a, c, f, h);
      if |h| > 0 && h[0] == a {
        var df := Differential(f);
        assert ChainBoundary(ch) == Scale(c, df) + ChainBoundary(ch[1..]);
        CoefAppend(Scale(c, df), ChainBoundary(ch[1..]), h[1..]);
        CoefScale(c, df, h[1..]);
      }
    }
  }

  /** The coefficient of `h` in c times the boundary of the face `a` followed by `f`. */
  lemma CoefPrependedHead(a: int, c: int, f: Face, h: Face)
    ensures Coef(Scale(c, Differential([a] + f)), h)
         == (if f == h then c else 0) - (if |h| > 0 && h[0] == a then c * Coef(Differential(f), h[1..]) else 0)
  {
    var x := Coef(Differential([a] + f), h);
    var hf := if f == h then 1 else 0;
    var p := if |h| > 0 && h[0] == a then Coef(Differential(f), h[1..]) else 0;
    CoefDifferentialCons(a, f, h);
    CoefScale(c, Differential([a] + f), h);
    ScaledDifference(c, x, hf, p);
  }

  lemma ScaledDifference(c: int, x: int, hf: int, p: int)
    requires hf == 0 || hf == 1
    requires x == hf - p
    ensures c * x == (if hf == 1 then c else 0) - c * p
  {
    MulSub(c, hf, p);
  }

  /** The coefficient of `h` in the boundary of the face `a` followed by `f`. */
  lemma CoefDifferentialCons(a: int, f: Face, h: Face)
    ensures Coef(Differential([a] + f), h)
         == (if f == h then 1 else 0) - (if |h| > 0 && h[0] == a then Coef(Differential(f), h[1..]) else 0)
  {
    var df := Differential(f);
    DifferentialCons(a, f);
    CoefAppend([(1, f)], Prepend(a, Scale(-1, df)), h);
    CoefPrepend(a, Scale(-1, df), h);
    assert Coef([(1, f)], h) == if f == h then 1 else 0;
    if |h| > 0 && h[0] == a {
      CoefScale(-1, df, h[1..]);
    }
  }

  lemma MulSub(c: int, x: int, y: int)
    ensures c * (x - y) == c * x - c * y
  {
  }

  /** The boundary of a boundary is zero: every face gets coefficient 0 in d(d(g)). */
  lemma {:induction false} BoundaryOfBoundary(g: Face, h: Face)
    ensures Coef(ChainBoundary(Differential(g)), h) == 0
    decreases |g|
  {
    if g != [] {
      var a := g[0];
      var g' := g[1..];
      assert g == [a] + g';
      var dg := Differential(g');
      var tail := Prepend(a, Scale(-1, dg));
      DifferentialCons(a, g');
      ChainBoundaryAppend([(1, g')], tail);
      CoefAppend(ChainBoundary([(1, g')]), ChainBoundary(tail), h);
      assert ChainBoundary([(1, g')]) == Scale(1, dg) + [];
      CoefAppend(Scale(1, dg), [], h);
      CoefScale(1, dg, h);
      CoefChainBoundaryPrepend(a, Scale(-1, dg), h);
      CoefScale(-1, dg, h);
      if |h| > 0 && h[0] == a {
        CoefChainBoundaryScale(-1, dg, h[1..]);
        BoundaryOfBoundary(g', h[1..]);
      }
    }
  }

  /** Integer matrices as lists of rows. */
  type Matrix = seq<seq<int>>

  /** Every face of `s1` has a column index in `o1`. */
  predicate ColumnsIndexed(s1: seq<Face>, o1: map<Face, int>) {
    forall i :: 0 <= i < |s1| ==> s1[i] in o1 && 0 <= o1[s1[i]] < |s1|
  }

  /** Every facet of every face of `s1` has a row index in `o2`. */
  predicate FacetsIndexed(s1: seq<Face>, s2: seq<Face>, o2: map<Face, int>) {
    forall i, k :: 0 <= i < |s1| && 0 <= k < |s1[i]| ==>
      Delete(s1[i], k) in o2 && 0 <= o2[Delete(s1[i], k)] < |s2|
  }

  /** Distinct faces of `s1` get distinct columns. */
  predicate DistinctColumns(s1: seq<Face>, o1: map<Face, int>)
    requires ColumnsIndexed(s1, o1)
  {
    forall i, i' :: 0 <= i < |s1| && 0 <= i' < |s1| && s1[i] != s1[i'] ==> o1[s1[i]] != o1[s1[i']]
  }

  /** The facets of one face of `s1` get distinct rows. */
  predicate DistinctFacetRows(s1: seq<Face>, s2: seq<Face>, o2: map<Face, int>)
    requires FacetsIndexed(s1, s2, o2)
  {
    forall i, k, k' :: 0 <= i < |s1| && 0 <= k < k' < |s1[i]| ==>
      o2[Delete(s1[i], k)] != o2[Delete(s1[i], k')]
  }

  /** The sentinel `[[]]` for an empty domain, otherwise |s2| rows of |s1| entries. */
  predicate Shaped(mat: Matrix, s1: seq<Face>, s2: seq<Face>) {
    (|s1| == 0 ==> mat == [[]]) &&
    (|s1| > 0 ==> |mat| == |s2| && forall r :: 0 <= r < |mat| ==> |mat[r]| == |s1|)
  }

  /** Every nonzero entry is the sign of a facet: at (row of the facet, column of the face). */
  predicate EntriesFromFacets(mat: Matrix, s1: seq<Face>, s2: seq<Face>, o1: map<Face, int>, o2: map<Face, int>)
    requires ColumnsIndexed(s1, o1) && FacetsIndexed(s1, s2, o2)
  {
    forall r, c :: 0 <= r < |mat| && 0 <= c < |mat[r]| ==>
      (mat[r][c] == 0 || mat[r][c] == 1 || mat[r][c] == -1) &&
      (mat[r][c] != 0 ==>
         (exists i, k {:trigger Delete(s1[i], k)} :: 0 <= i < |s1| && 0 <= k < |s1[i]| &&
            o1[s1[i]] == c && o2[Delete(s1[i], k)] == r && mat[r][c] == Sign(k)))
  }

  /** The facets of the first `n` faces of `s1` appear in their columns with their signs. */
  predicate RecordedUpTo(mat: Matrix, s1: seq<Face>, s2: seq<Face>, o1: map<Face, int>, o2: map<Face, int>, n: nat)
    requires ColumnsIndexed(s1, o1) && FacetsIndexed(s1, s2, o2) && Shaped(mat, s1, s2) && n <= |s1|
  {
    forall i, k {:trigger Delete(s1[i], k)} :: 0 <= i < n && 0 <= k < |s1[i]| ==>
      mat[o2[Delete(s1[i], k)]][o1[s1[i]]] == Sign(k)
  }

  /** The facet with position k deleted appears in its face's column with sign (-1)^k. */
  predicate FacetsRecorded(mat: Matrix, s1: seq<Face>, s2: seq<Face>, o1: map<Face, int>, o2: map<Face, int>)
    requires ColumnsIndexed(s1, o1) && FacetsIndexed(s1, s2, o2) && Shaped(mat, s1, s2)
  {
    RecordedUpTo(mat, s1, s2, o1, o2, |s1|)
  }

  /** The matrix after assigning the sign of facet `j` of face `i` into its cell. */
  function Assign(mat: Matrix, s1: seq<Face>, s2: seq<Face>, o1: map<Face, int>, o2: map<Face, int>, i: nat, j: nat): Matrix
    requires ColumnsIndexed(s1, o1) && FacetsIndexed(s1, s2, o2) && Shaped(mat, s1, s2)
    requires i < |s1| && j < |s1[i]|
  {
    var row := o2[Delete(s1[i], j)];
    mat[row := mat[row][o1[s1[i]] := Sign(j)]]
  }

  /** One assignment keeps the shape and keeps every nonzero entry the sign of a facet. */
  lemma AssignKeepsEntries(mat: Matrix, s1: seq<Face>, s2: seq<Face>, o1: map<Face, int>, o2: map<Face, int>, i: nat, j: nat)
    requires ColumnsIndexed(s1, o1) && FacetsIndexed(s1, s2, o2) && Shaped(mat, s1, s2)
    requires i < |s1| && j < |s1[i]|
    requires EntriesFromFacets(mat, s1, s2, o1, o2)
    ensures Shaped(Assign(mat, s1, s2, o1, o2, i, j), s1, s2)
    ensures EntriesFromFacets(Assign(mat, s1, s2, o1, o2, i, j), s1, s2, o1, o2)
  {
    var m' := Assign(mat, s1, s2, o1, o2, i, j);
    var row, col := o2[Delete(s1[i], j)], o1[s1[i]];
    forall r, c | 0 <= r < |m'| && 0 <= c < |m'[r]|
      ensures (m'[r][c] == 0 || m'[r][c] == 1 || m'[r][c] == -1) &&
        (m'[r][c] != 0 ==>
          (exists i', k :: 0 <= i' < |s1| && 0 <= k < |s1[i']| &&
             o1[s1[i']] == c && o2[Delete(s1[i'], k)] == r && m'[r][c] == Sign(k)))
    {
      if r == row && c == col {
        assert m'[r][c] == Sign(j);
      } else {
        assert m'[r][c] == mat[r][c];
      }
    }
  }

  /** One assignment writes only the column of face `i`. */
  lemma AssignKeepsOtherColumns(mat: Matrix, s1: seq<Face>, s2: seq<Face>, o1: map<Face, int>, o2: map<Face, int>, i: nat, j: nat)
    requires ColumnsIndexed(s1, o1) && FacetsIndexed(s1, s2, o2) && Shaped(mat, s1, s2)
    requires i < |s1| && j < |s1[i]|
    ensures |Assign(mat, s1, s2, o1, o2, i, j)| == |mat|
    ensures forall r, c :: 0 <= r < |mat| && 0 <= c < |mat[r]| && c != o1[s1[i]] ==>
      Assign(mat, s1, s2, o1, o2, i, j)[r][c] == mat[r][c]
  {
  }

  /** With distinct columns and distinct facet rows, one assignment overwrites no recorded sign. */
  lemma AssignKeepsRecorded(mat: Matrix, s1: seq<Face>, s2: seq<Face>, o1: map<Face, int>, o2: map<Face, int>, i: nat, j: nat)
    requires ColumnsIndexed(s1, o1) && FacetsIndexed(s1, s2, o2) && Shaped(mat, s1, s2)
    requires DistinctColumns(s1, o1) && DistinctFacetRows(s1, s2, o2)
    requires i < |s1| && j < |s1[i]|
    requires RecordedUpTo(mat, s1, s2, o1, o2, i)
    requires forall k :: 0 <= k < j ==> mat[o2[Delete(s1[i], k)]][o1[s1[i]]] == Sign(k)
    ensures Shaped(Assign(mat, s1, s2, o1, o2, i, j), s1, s2)
    ensures RecordedUpTo(Assign(mat, s1, s2, o1, o2, i, j), s1, s2, o1, o2, i)
    ensures forall k :: 0 <= k <= j ==>
      Assign(mat, s1, s2, o1, o2, i, j)[o2[Delete(s1[i], k)]][o1[s1[i]]] == Sign(k)
  {
    var m' := Assign(mat, s1, s2, o1, o2, i, j);
    var row, col := o2[Delete(s1[i], j)], o1[s1[i]];
    forall i', k | 0 <= i' < i && 0 <= k < |s1[i']|
      ensures m'[o2[Delete(s1[i'], k)]][o1[s1[i']]] == Sign(k)
    {
      if s1[i'] == s1[i] {
        if k < j {
          assert o2[Delete(s1[i], k)] != o2[Delete(s1[i], j)];
        } else if k > j {
          assert o2[Delete(s1[i], j)] != o2[Delete(s1[i], k)];
        }
      } else {
        assert o1[s1[i']] != col;
      }
    }
    forall k | 0 <= k < j
      ensures m'[o2[Delete(s1[i], k)]][col] == Sign(k)
    {
      assert o2[Delete(s1[i], k)] != o2[Delete(s1[i], j)];
    }
  }

  lemma RecordedExtend(mat: Matrix, s1: seq<Face>, s2: seq<Face>, o1: map<Face, int>, o2: map<Face, int>, i: nat)
    requires ColumnsIndexed(s1, o1) && FacetsIndexed(s1, s2, o2) && Shaped(mat, s1, s2) && i < |s1|
    requires RecordedUpTo(mat, s1, s2, o1, o2, i)
    requires forall k :: 0 <= k < |s1[i]| ==> mat[o2[Delete(s1[i], k)]][o1[s1[i]]] == Sign(k)
    ensures RecordedUpTo(mat, s1, s2, o1, o2, i + 1)
  {
  }

  /**
    The inner loop of the matrix builder for face `i`: the sign of each facet of the
    face is assigned into the cell (row of the facet, column of the face).
  */
  method AssignFacets(mat0: Matrix, s1: seq<Face>, s2: seq<Face>, o1: map<Face, int>, o2: map<Face, int>, i: nat)
    returns (mat: Matrix)
    requires ColumnsIndexed(s1, o1) && FacetsIndexed(s1, s2, o2) && Shaped(mat0, s1, s2) && i < |s1|
    requires EntriesFromFacets(mat0, s1, s2, o1, o2)
    ensures Shaped(mat, s1, s2) && EntriesFromFacets(mat, s1, s2, o1, o2)
    ensures DistinctColumns(s1, o1) && DistinctFacetRows(s1, s2, o2) && RecordedUpTo(mat0, s1, s2, o1, o2, i) ==>
      RecordedUpTo(mat, s1, s2, o1, o2, i + 1)
    ensures |mat| == |mat0|
    ensures forall r, c :: 0 <= r < |mat| && 0 <= c < |mat[r]| && c != o1[s1[i]] ==> mat[r][c] == mat0[r][c]
  {
    mat := mat0;
    ghost var inj := DistinctColumns(s1, o1) && DistinctFacetRows(s1, s2, o2) && RecordedUpTo(mat0, s1, s2, o1, o2, i);
    var boundary := Differential(s1[i]);
    for j := 0 to |boundary|
      invariant Shaped(mat, s1, s2)
      invariant EntriesFromFacets(mat, s1, s2, o1, o2)
      invariant inj ==> RecordedUpTo(mat, s1, s2, o1, o2, i)
      invariant inj ==> forall k :: 0 <= k < j ==> mat[o2[Delete(s1[i], k)]][o1[s1[i]]] == Sign(k)
      invariant |mat| == |mat0|
      invariant forall r, c :: 0 <= r < |mat| && 0 <= c < |mat[r]| && c != o1[s1[i]] ==> mat[r][c] == mat0[r][c]
    {
      ghost var before := mat;
      AssignKeepsOtherColumns(before, s1, s2, o1, o2, i, j);
      mat := mat[o2[boundary[j].1] := mat[o2[boundary[j].1]][o1[s1[i]] := boundary[j].0]];
      assert mat == Assign(before, s1, s2, o1, o2, i, j);
      AssignKeepsEntries(before, s1, s2, o1, o2, i, j);
      if inj {
        AssignKeepsRecorded(before, s1, s2, o1, o2, i, j);
      }
    }
    if inj {
      RecordedExtend(mat, s1, s2, o1, o2, i);
    }
  }

  /**
    Builds the boundary matrix from the faces `s1` (columns) to `s2` (rows): the
    sentinel `[[]]` when `s1` is empty, otherwise a zero matrix of |s2| rows and
    |s1| columns, then for each face the sign of each facet assigned (not added)
    to the cell (row of the facet, column of the face).
  */
  method GetMatrix(s1: seq<Face>, s2: seq<Face>, o1: map<Face, int>, o2: map<Face, int>) returns (mat: Matrix)
    requires ColumnsIndexed(s1, o1) && FacetsIndexed(s1, s2, o2)
    ensures mat == [[]] <==> |s1| == 0
    ensures Shaped(mat, s1, s2)
    ensures EntriesFromFacets(mat, s1, s2, o1, o2)
    ensures DistinctColumns(s1, o1) && DistinctFacetRows(s1, s2, o2) ==> FacetsRecorded(mat, s1, s2, o1, o2)
  {
    if |s1| == 0 {
      return [[]];
    }
    mat := [];
    for i := 0 to |s2|
      invariant |mat| == i
      invariant forall r :: 0 <= r < i ==> mat[r] == seq(|s1|, _ => 0)
    {
      mat := mat + [seq(|s1|, _ => 0)];
    }
    ghost var inj := DistinctColumns(s1, o1) && DistinctFacetRows(s1, s2, o2);
    for i := 0 to |s1|
      invariant Shaped(mat, s1, s2)
      invariant EntriesFromFacets(mat, s1, s2, o1, o2)
      invariant inj ==> RecordedUpTo(mat, s1, s2, o1, o2, i)
    {
      mat := AssignFacets(mat, s1, s2, o1, o2, i);
    }
    assert |mat| > 0 ==> |mat[0]| == |s1|;
  }
}
