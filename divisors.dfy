/**
  Rank and nontrivial elementary divisors read off a Smith Normal Form diagonal
  (`get_nontrivial_elementary_divisors`, after the reduction itself).

  The reduction is done by a library whose code is not part of this model; its
  diagonal, the first min(rows, cols) entries of the reduced matrix, is an input here.
*/
module Divisors {
  import opened Faces
  import opened Boundary
  import Closure

  /** Entries 0, 1 and -1 give no torsion summand. */
  predicate Trivial(d: int) {
    -2 < d < 2
  }

  /** The diagonal entries with absolute value at least 2, kept in diagonal order. */
  function Nontrivial(diag: seq<int>): (r: seq<int>)
    ensures forall x :: x in r ==> !Trivial(x)
    ensures |r| <= |diag|
  {
    if diag == [] then []
    else
      var last := diag[|diag| - 1];
      assert diag == diag[..|diag| - 1] + [last];
      Nontrivial(diag[..|diag| - 1]) + (if Trivial(last) then [] else [last])
  }

  /** The number of nonzero diagonal entries: the rank of the reduced matrix. */
  function NonzeroCount(diag: seq<int>): (n: nat)
    ensures n <= |diag|
  {
    if diag == [] then 0
    else
      var last := diag[|diag| - 1];
      assert diag == diag[..|diag| - 1] + [last];
      NonzeroCount(diag[..|diag| - 1]) + (if last != 0 then 1 else 0)
  }

  /** Each nontrivial value occurs among the divisors exactly as often as on the diagonal. */
  lemma {:induction false} NontrivialCounts(diag: seq<int>)
    ensures forall x :: !Trivial(x) ==> multiset(Nontrivial(diag))[x] == multiset(diag)[x]
  {
    if diag != [] {
      var init := diag[..|diag| - 1];
      var last := diag[|diag| - 1];
      assert diag == init + [last];
      NontrivialCounts(init);
    }
  }

  /** The rank is the number of diagonal entries that are not 0. */
  lemma {:induction false} NonzeroCountCounts(diag: seq<int>)
    ensures NonzeroCount(diag) == |diag| - multiset(diag)[0]
  {
    if diag != [] {
      var init := diag[..|diag| - 1];
      var last := diag[|diag| - 1];
      assert diag == init + [last];
      NonzeroCountCounts(init);
    }
  }

  lemma DiagonalSnoc(diag: seq<int>, x: int)
    ensures Nontrivial(diag + [x]) == Nontrivial(diag) + (if Trivial(x) then [] else [x])
    ensures NonzeroCount(diag + [x]) == NonzeroCount(diag) + (if x != 0 then 1 else 0)
  {
    assert (diag + [x])[..|diag|] == diag;
  }

  /** There are no more nontrivial divisors than nonzero entries. */
  lemma {:induction false} NontrivialWithinRank(diag: seq<int>)
    ensures |Nontrivial(diag)| <= NonzeroCount(diag) <= |diag|
  {
    if diag != [] {
      NontrivialWithinRank(diag[..|diag| - 1]);
    }
  }

  lemma {:induction false} SubSeqsAppend(s: seq<int>, t: seq<int>, x: int)
    requires t in Closure.SubSeqs(s)
    ensures t in Closure.SubSeqs(s + [x]) && t + [x] in Closure.SubSeqs(s + [x])
    decreases |s|
  {
    if s == [] {
      var sx := s + [x];
      assert sx[1..] == [] && sx[0] == x;
      var rest := Closure.SubSeqs(sx[1..]);
      assert [] in rest;
      assert [sx[0]] + [] in set u | u in rest :: [sx[0]] + u;
      assert t == [] && t + [x] == [sx[0]] + [];
    } else {
      var rest := Closure.SubSeqs(s[1..]);
      assert (s + [x])[1..] == s[1..] + [x];
      assert (s + [x])[0] == s[0];
      if t in rest {
        SubSeqsAppend(s[1..], t, x);
      } else {
        var t' :| t' in rest && t == [s[0]] + t';
        SubSeqsAppend(s[1..], t', x);
        assert t + [x] == [s[0]] + (t' + [x]);
      }
    }
  }

  /** The divisors come out in diagonal order: they form a subsequence of the diagonal. */
  lemma {:induction false} NontrivialInOrder(diag: seq<int>)
    ensures Nontrivial(diag) in Closure.SubSeqs(diag)
  {
    if diag != [] {
      var init := diag[..|diag| - 1];
      var last := diag[|diag| - 1];
      var n := Nontrivial(init);
      assert init + [last] == diag;
      assert Nontrivial(diag) == n + (if Trivial(last) then [] else [last]);
      NontrivialInOrder(init);
      SubSeqsAppend(init, n, last);
      if Trivial(last) {
        assert Nontrivial(diag) == n;
      } else {
        assert Nontrivial(diag) == n + [last];
      }
    }
  }

  function Times(a: int, k: int): int {
    a * k
  }

  /** `a` divides `b` over the integers. */
  ghost predicate Divides(a: int, b: int) {
    exists k :: Times(a, k) == b
  }

  /** Each entry divides the next, as on a Smith Normal Form diagonal. */
  ghost predicate DivisibilityChain(d: seq<int>) {
    forall i :: 0 <= i < |d| - 1 ==> Divides(d[i], d[i + 1])
  }

  lemma DividesTransitive(a: int, b: int, c: int)
    requires Divides(a, b) && Divides(b, c)
    ensures Divides(a, c)
  {
    var k1 :| Times(a, k1) == b;
    var k2 :| Times(b, k2) == c;
    assert a * (k1 * k2) == (a * k1) * k2;
    assert Times(a, k1 * k2) == c;
  }

  lemma {:induction false} ChainDividesLater(d: seq<int>, i: nat, j: nat)
    requires DivisibilityChain(d) && i <= j < |d|
    ensures Divides(d[i], d[j])
    decreases j - i
  {
    if i == j {
      assert Times(d[i], 1) == d[j];
    } else {
      ChainDividesLater(d, i + 1, j);
      DividesTransitive(d[i], d[i + 1], d[j]);
    }
  }

  /** Dropping the trivial entries of a divisibility chain leaves a divisibility chain. */
  lemma {:induction false} NontrivialKeepsChain(diag: seq<int>)
    requires DivisibilityChain(diag)
    ensures DivisibilityChain(Nontrivial(diag))
  {
    if diag != [] {
      var init := diag[..|diag| - 1];
      var last := diag[|diag| - 1];
      assert DivisibilityChain(init) by {
        forall i | 0 <= i < |init| - 1
          ensures Divides(init[i], init[i + 1])
        {
          assert init[i] == diag[i] && init[i + 1] == diag[i + 1];
        }
      }
      NontrivialKeepsChain(init);
      var n := Nontrivial(init);
      if !Trivial(last) && n != [] {
        var y := n[|n| - 1];
        assert y in n;
        NontrivialCounts(init);
        assert multiset(init)[y] > 0;
        assert y in init;
        var m :| 0 <= m < |init| && init[m] == y;
        ChainDividesLater(diag, m, |diag| - 1);
        var r := n + [last];
        forall i | 0 <= i < |r| - 1
          ensures Divides(r[i], r[i + 1])
        {
          if i < |n| - 1 {
            assert r[i] == n[i] && r[i + 1] == n[i + 1];
          }
        }
      }
    }
  }

  /**
    The rank and the nontrivial divisors of a boundary matrix, given the diagonal of
    its Smith Normal Form. The sentinel `[[]]` (no columns) gives no divisors and rank
    0 without any reduction.
  */
  method NontrivialElementaryDivisors(mat: Matrix, diag: seq<int>) returns (divs: seq<int>, r: nat)
    requires mat != []
    requires mat != [[]] ==> |diag| == Min(|mat|, |mat[0]|)
    ensures mat == [[]] ==> divs == [] && r == 0
    ensures mat != [[]] ==> divs == Nontrivial(diag) && r == NonzeroCount(diag)
    ensures r <= Min(|mat|, |mat[0]|)
    ensures |divs| <= r
    ensures forall d :: d in divs ==> d <= -2 || 2 <= d
  {
    if mat == [[]] {
      return [], 0;
    }
    var rows := |mat|;
    var cols := |mat[0]|;
    var n := Min(rows, cols);
    assert n == |diag|;
    divs := [];
    r := 0;
    for i := 0 to n
      invariant divs == Nontrivial(diag[..i])
      invariant r == NonzeroCount(diag[..i])
    {
      var divisor := diag[i];
      ghost var done := diag[..i];
      assert diag[..i + 1] == done + [divisor];
      DiagonalSnoc(done, divisor);
      if divisor != 0 {
        r := r + 1;
      }
      if !(-2 < divisor < 2) {
        divs := divs + [diag[i]];
      }
    }
    assert diag[..n] == diag;
    NontrivialWithinRank(diag);
  }
}
