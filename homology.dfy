/**
  The homology assembly of `simp_hom`: faces grouped into dimension strata, each
  stratum above dimension 0 sorted, every face given its position in its stratum,
  one boundary matrix and its rank and divisors per pair of consecutive strata, and
  per dimension the free rank |C_i| - rank d_i - rank d_(i+1) with the divisors of
  d_(i+1) as torsion.

  Stratum k (bucket k) holds the faces of size k + 1. With b the size of the largest
  face there are b + 1 buckets, the last one always empty, and b groups.
*/
module Homology {
  import opened Faces
  import opened Boundary
  import opened Divisors
  import opened Sorting
  import Closure

  /** One entry of the rank table: the rank of a boundary map and its nontrivial divisors. */
  datatype Reduced = Reduced(rank: int, divisors: seq<int>)

  /** A homology group: Z^free plus one cyclic summand Z/dZ per torsion entry d. */
  datatype Group = Group(free: int, torsion: seq<int>)

  /** The Smith Normal Form diagonal of an r x c matrix has min(r, c) entries. */
  ghost predicate SnfShape(snf: Matrix -> seq<int>) {
    forall m: Matrix :: |m| > 0 ==> |snf(m)| == Min(|m|, |m[0]|)
  }

  /** What the divisor step reports for a matrix with the given reduced diagonal. */
  function Reduction(mat: Matrix, diag: seq<int>): Reduced {
    if mat == [[]] then Reduced(0, []) else Reduced(NonzeroCount(diag), Nontrivial(diag))
  }

  /** The faces of `fs` of size `n`, in their order in `fs`. */
  function OfLength(fs: seq<Face>, n: nat): (r: seq<Face>)
    ensures |r| <= |fs|
  {
    if fs == [] then []
    else
      var last := fs[|fs| - 1];
      assert fs == fs[..|fs| - 1] + [last];
      OfLength(fs[..|fs| - 1], n) + (if |last| == n then [last] else [])
  }

  /** A face is selected exactly when it is in the list and has the size asked for. */
  lemma {:induction false} OfLengthMember(fs: seq<Face>, n: nat, f: Face)
    ensures f in OfLength(fs, n) <==> f in fs && |f| == n
  {
    if fs != [] {
      var init := fs[..|fs| - 1];
      assert fs == init + [fs[|fs| - 1]];
      OfLengthMember(init, n, f);
    }
  }

  /** A selected face occurs as often as in the list. */
  lemma {:induction false} OfLengthCount(fs: seq<Face>, n: nat, f: Face)
    requires |f| == n
    ensures multiset(OfLength(fs, n))[f] == multiset(fs)[f]
  {
    if fs != [] {
      var init := fs[..|fs| - 1];
      assert fs == init + [fs[|fs| - 1]];
      OfLengthCount(init, n, f);
    }
  }

  lemma OfLengthSnoc(fs: seq<Face>, f: Face, n: nat)
    ensures OfLength(fs + [f], n) == OfLength(fs, n) + (if |f| == n then [f] else [])
  {
    assert (fs + [f])[..|fs|] == fs;
  }

  /** Appending a face to the bucket of its size keeps every bucket equal to the faces of its size. */
  lemma PlaceFace(buckets: seq<seq<Face>>, prefix: seq<Face>, f: Face)
    requires |f| <= |buckets|
    requires forall k :: 0 <= k < |buckets| ==> buckets[k] == OfLength(prefix, k + 1)
    ensures var placed := if |f| > 0 then buckets[|f| - 1 := buckets[|f| - 1] + [f]] else buckets;
      forall k :: 0 <= k < |placed| ==> placed[k] == OfLength(prefix + [f], k + 1)
  {
    forall k | 0 <= k < |buckets|
      ensures OfLength(prefix + [f], k + 1) == buckets[k] + (if |f| == k + 1 then [f] else [])
    {
      OfLengthSnoc(prefix, f, k + 1);
    }
  }

  /** Every face of the bucket is a key, mapped to a position holding that face. */
  ghost predicate IsIndex(o: map<Face, int>, bucket: seq<Face>) {
    (forall j :: 0 <= j < |bucket| ==> bucket[j] in o) &&
    (forall f :: f in o ==> 0 <= o[f] < |bucket| && bucket[o[f]] == f)
  }

  /** Each face is mapped to its own position (a bijection onto 0 .. |bucket| - 1). */
  predicate PositionMap(o: map<Face, int>, bucket: seq<Face>) {
    forall j :: 0 <= j < |bucket| ==> bucket[j] in o && o[bucket[j]] == j
  }

  /** The largest face size, or -1 when there are no faces. */
  method LargestFaceSize(fset: seq<Face>) returns (biggest: int)
    ensures fset == [] ==> biggest == -1
    ensures forall f :: f in fset ==> |f| <= biggest
    ensures fset != [] ==> exists f :: f in fset && |f| == biggest
  {
    biggest := -1;
    for n := 0 to |fset|
      invariant forall k :: 0 <= k < n ==> |fset[k]| <= biggest
      invariant n == 0 ==> biggest == -1
      invariant n > 0 ==> exists k :: 0 <= k < n && |fset[k]| == biggest
    {
      if |fset[n]| > biggest {
        biggest := |fset[n]|;
      }
    }
  }

  /** biggest + 1 buckets; bucket k receives the faces of size k + 1 in their order. */
  method GroupBySize(fset: seq<Face>, biggest: int) returns (buckets: seq<seq<Face>>)
    requires biggest >= -1
    requires forall f :: f in fset ==> |f| <= biggest
    ensures |buckets| == biggest + 1
    ensures forall k :: 0 <= k < |buckets| ==> buckets[k] == OfLength(fset, k + 1)
  {
    buckets := [];
    for k := 0 to biggest + 1
      invariant |buckets| == k
      invariant forall k' :: 0 <= k' < k ==> buckets[k'] == []
    {
      buckets := buckets + [[]];
    }
    for n := 0 to |fset|
      invariant |buckets| == biggest + 1
      invariant forall k :: 0 <= k < |buckets| ==> buckets[k] == OfLength(fset[..n], k + 1)
    {
      var f := fset[n];
      assert fset[..n + 1] == fset[..n] + [f];
      assert f in fset;
      PlaceFace(buckets, fset[..n], f);
      if |f| > 0 {
        buckets := buckets[|f| - 1 := buckets[|f| - 1] + [f]];
      }
    }
    assert fset[..|fset|] == fset;
  }

  /**
    For every bucket from 1 on: each face sorted, then the bucket sorted. Bucket 0
    is left in insertion order. Faces arrive with ascending vertices, so sorting a face
    leaves it as it is.
  */
  method SortBuckets(buckets: seq<seq<Face>>) returns (sorted: seq<seq<Face>>)
    requires forall k, j :: 0 <= k < |buckets| && 0 <= j < |buckets[k]| ==> StrictlySorted(buckets[k][j])
    ensures |sorted| == |buckets|
    ensures |buckets| > 0 ==> sorted[0] == buckets[0]
    ensures forall k :: 1 <= k < |sorted| ==> SortedBy(sorted[k], LexLe)
    ensures forall k :: 0 <= k < |sorted| ==> multiset(sorted[k]) == multiset(buckets[k])
  {
    IntOrder();
    LexOrder();
    sorted := buckets;
    var k := 1;
    while k < |sorted|
      invariant 1 <= k
      invariant |sorted| == |buckets|
      invariant forall k' :: 0 <= k' < |sorted| && (k' == 0 || k <= k') ==> sorted[k'] == buckets[k']
      invariant forall k' :: 1 <= k' < k && k' < |sorted| ==>
        SortedBy(sorted[k'], LexLe) && multiset(sorted[k']) == multiset(buckets[k'])
    {
      var bucket := sorted[k];
      for j := 0 to |bucket|
        invariant bucket == sorted[k]
      {
        assert SortedBy(bucket[j], IntLe) by {
          assert StrictlySorted(buckets[k][j]);
        }
        SortSorted(bucket[j], IntLe);
        bucket := bucket[j := Sort(bucket[j], IntLe)];
      }
      sorted := sorted[k := Sort(bucket, LexLe)];
      k := k + 1;
    }
  }

  /** The dictionary of one bucket: each face mapped to its index, a later index overwriting. */
  method IndexBucket(bucket: seq<Face>) returns (o: map<Face, int>)
    ensures IsIndex(o, bucket)
    ensures NoDup(bucket) ==> PositionMap(o, bucket)
  {
    o := map[];
    for j := 0 to |bucket|
      invariant forall j' :: 0 <= j' < j ==> bucket[j'] in o
      invariant forall f :: f in o ==> 0 <= o[f] < j && bucket[o[f]] == f
      invariant NoDup(bucket) ==> forall j' :: 0 <= j' < j ==> o[bucket[j']] == j'
    {
      o := o[bucket[j] := j];
    }
  }

  method IndexBuckets(buckets: seq<seq<Face>>) returns (orders: seq<map<Face, int>>)
    ensures |orders| == |buckets|
    ensures forall k :: 0 <= k < |buckets| ==> IsIndex(orders[k], buckets[k])
    ensures forall k :: 0 <= k < |buckets| && NoDup(buckets[k]) ==> PositionMap(orders[k], buckets[k])
  {
    orders := [];
    for k := 0 to |buckets|
      invariant |orders| == k
      invariant forall k' :: 0 <= k' < k ==> IsIndex(orders[k'], buckets[k'])
      invariant forall k' :: 0 <= k' < k && NoDup(buckets[k']) ==> PositionMap(orders[k'], buckets[k'])
    {
      var o := IndexBucket(buckets[k]);
      orders := orders + [o];
    }
  }

  /** The strata and their dictionaries as the boundary step needs them. */
  ghost predicate IndexedStrata(buckets: seq<seq<Face>>, orders: seq<map<Face, int>>) {
    |orders| == |buckets| &&
    (forall k :: 0 <= k < |buckets| ==> IsIndex(orders[k], buckets[k])) &&
    (forall k, a :: 0 <= k < |buckets| && 0 <= a < |buckets[k]| ==>
       |buckets[k][a]| == k + 1 && StrictlySorted(buckets[k][a])) &&
    (forall k, a, j :: 0 < k < |buckets| && 0 <= a < |buckets[k]| && 0 <= j < |buckets[k][a]| ==>
       Delete(buckets[k][a], j) in buckets[k - 1])
  }

  /** Matrix `i` maps stratum i + 1 to stratum i, and `red` is what the divisor step reports for it. */
  ghost predicate BoundaryStep(buckets: seq<seq<Face>>, orders: seq<map<Face, int>>, i: nat,
                               mat: Matrix, red: Reduced, snf: Matrix -> seq<int>)
    requires i + 1 < |buckets| && |orders| == |buckets|
  {
    var s1, s2, o1, o2 := buckets[i + 1], buckets[i], orders[i + 1], orders[i];
    ColumnsIndexed(s1, o1) && FacetsIndexed(s1, s2, o2) &&
    Shaped(mat, s1, s2) && EntriesFromFacets(mat, s1, s2, o1, o2) && FacetsRecorded(mat, s1, s2, o1, o2) &&
    red == Reduction(mat, snf(mat)) &&
    0 <= red.rank <= Min(|s1|, |s2|) && |red.divisors| <= red.rank &&
    (forall d :: d in red.divisors ==> !Trivial(d))
  }

  /** The dictionaries of strata i + 1 and i address every face and facet, without collisions. */
  lemma StrataIndexed(buckets: seq<seq<Face>>, orders: seq<map<Face, int>>, i: nat)
    requires IndexedStrata(buckets, orders) && i + 1 < |buckets|
    ensures ColumnsIndexed(buckets[i + 1], orders[i + 1])
    ensures FacetsIndexed(buckets[i + 1], buckets[i], orders[i])
    ensures DistinctColumns(buckets[i + 1], orders[i + 1])
    ensures DistinctFacetRows(buckets[i + 1], buckets[i], orders[i])
  {
    var s1, s2, o1, o2 := buckets[i + 1], buckets[i], orders[i + 1], orders[i];
    assert IsIndex(o1, s1) && IsIndex(o2, s2);
    forall a, k | 0 <= a < |s1| && 0 <= k < |s1[a]|
      ensures Delete(s1[a], k) in o2 && 0 <= o2[Delete(s1[a], k)] < |s2|
    {
      assert Delete(buckets[i + 1][a], k) in buckets[i];
    }
    forall a, k, k' | 0 <= a < |s1| && 0 <= k < k' < |s1[a]|
      ensures o2[Delete(s1[a], k)] != o2[Delete(s1[a], k')]
    {
      DeletionsDistinct(s1[a], k, k');
    }
  }

  /**
    The rank table: (0, []) for the map into dimension 0, then for each pair of
    consecutive strata the boundary matrix and what the divisor step reports for it.
  */
  ghost predicate RankTable(buckets: seq<seq<Face>>, orders: seq<map<Face, int>>, ranks: seq<Reduced>,
                            mats: seq<Matrix>, snf: Matrix -> seq<int>) {
    |orders| == |buckets| && |mats| == Max(|buckets| - 1, 0) && |ranks| == |mats| + 1 &&
    ranks[0] == Reduced(0, []) &&
    forall i :: 0 <= i < |mats| ==> BoundaryStep(buckets, orders, i, mats[i], ranks[i + 1], snf)
  }

  /**
    One boundary matrix per pair of consecutive strata, from (1 -> 0) up to
    (biggest -> biggest - 1), each reduced to its rank and divisors; the table starts
    with (0, []) for the map into dimension 0.
  */
  method BoundaryRanks(buckets: seq<seq<Face>>, orders: seq<map<Face, int>>, biggest: int, snf: Matrix -> seq<int>)
    returns (ranks: seq<Reduced>, ghost mats: seq<Matrix>)
    requires biggest >= -1 && |buckets| == biggest + 1
    requires IndexedStrata(buckets, orders)
    requires SnfShape(snf)
    ensures |ranks| == Max(biggest, 0) + 1
    ensures RankTable(buckets, orders, ranks, mats, snf)
  {
    ranks := [Reduced(0, [])];
    mats := [];
    var i := 0;
    while i < biggest
      invariant 0 <= i <= Max(biggest, 0)
      invariant |ranks| == i + 1 && |mats| == i
      invariant ranks[0] == Reduced(0, [])
      invariant forall i' :: 0 <= i' < i ==> BoundaryStep(buckets, orders, i', mats[i'], ranks[i' + 1], snf)
    {
      var red, mat := ReduceBoundary(buckets, orders, i, snf);
      ranks := ranks + [red];
      mats := mats + [mat];
      i := i + 1;
    }
  }

  /** One step of the rank table: the boundary matrix from stratum i + 1 to stratum i, reduced. */
  method ReduceBoundary(buckets: seq<seq<Face>>, orders: seq<map<Face, int>>, i: nat, snf: Matrix -> seq<int>)
    returns (red: Reduced, ghost mat: Matrix)
    requires IndexedStrata(buckets, orders) && i + 1 < |buckets|
    requires SnfShape(snf)
    ensures 0 <= red.rank <= Min(|buckets[i + 1]|, |buckets[i]|) && |red.divisors| <= red.rank
    ensures forall d :: d in red.divisors ==> d <= -2 || 2 <= d
    ensures BoundaryStep(buckets, orders, i, mat, red, snf)
  {
    StrataIndexed(buckets, orders, i);
    var m := GetMatrix(buckets[i + 1], buckets[i], orders[i + 1], orders[i]);
    assert m != [] by {
      if |buckets[i + 1]| > 0 {
        var f := buckets[i + 1][0];
        assert f in buckets[i + 1];
        assert |f| == i + 2;
        assert 0 <= orders[i][Delete(f, 0)] < |buckets[i]|;
      }
    }
    var ntemd, r := NontrivialElementaryDivisors(m, snf(m));
    assert m != [[]] ==> |m| == |buckets[i]| && |m[0]| == |buckets[i + 1]|;
    red := Reduced(r, ntemd);
    mat := m;
  }

  /** x with the sign (-1)^k. */
  function Signed(k: nat, x: int): int {
    if k % 2 == 0 then x else -x
  }

  /** Alternating sum s[0] - s[1] + s[2] - ... */
  function AltSum(s: seq<int>): int {
    if s == [] then 0
    else
      var n := |s| - 1;
      AltSum(s[..n]) + Signed(n, s[n])
  }

  /** The free ranks of the groups. */
  function FreeRanks(groups: seq<Group>): (r: seq<int>)
    ensures |r| == |groups| && forall i :: 0 <= i < |r| ==> r[i] == groups[i].free
  {
    seq(|groups|, i requires 0 <= i < |groups| => groups[i].free)
  }

  /** The sizes of the first `n` strata. */
  function Sizes(buckets: seq<seq<Face>>, n: nat): (r: seq<int>)
    requires n <= |buckets|
    ensures |r| == n && forall i :: 0 <= i < n ==> r[i] == |buckets[i]|
  {
    seq(n, i requires 0 <= i < n => |buckets[i]|)
  }

  /** Extending a prefix by one element adds that element with the sign of its position. */
  lemma AltSumStep(s: seq<int>, n: nat)
    requires 0 < n <= |s|
    ensures AltSum(s[..n]) == AltSum(s[..n - 1]) + Signed(n - 1, s[n - 1])
  {
    assert s[..n][..n - 1] == s[..n - 1];
  }

  /**
    With free[i] = sizes[i] - ranks[i] - ranks[i + 1], the rank terms telescope:
    on the first n dimensions only ranks[0] and (-1)^(n-1) ranks[n] survive.
  */
  lemma {:induction false} Telescoping(sizes: seq<int>, ranks: seq<int>, free: seq<int>, n: nat)
    requires |ranks| == |sizes| + 1 && |free| == |sizes| && n <= |sizes|
    requires forall i :: 0 <= i < |sizes| ==> free[i] == sizes[i] - ranks[i] - ranks[i + 1]
    ensures AltSum(free[..n]) == AltSum(sizes[..n]) - (if n == 0 then 0 else ranks[0] + Signed(n - 1, ranks[n]))
  {
    if n > 0 {
      Telescoping(sizes, ranks, free, n - 1);
      AltSumStep(free, n);
      AltSumStep(sizes, n);
      assert free[n - 1] == sizes[n - 1] - ranks[n - 1] - ranks[n];
      if n > 1 {
        assert Signed(n - 1, ranks[n - 1]) == -Signed(n - 2, ranks[n - 1]);
      }
    }
  }

  /**
    Euler characteristic: when no map enters dimension 0 and none leaves the top
    dimension, the alternating sum of free ranks equals that of the stratum sizes.
  */
  lemma EulerCharacteristic(sizes: seq<int>, ranks: seq<int>, free: seq<int>)
    requires |ranks| == |sizes| + 1 && |free| == |sizes|
    requires forall i :: 0 <= i < |sizes| ==> free[i] == sizes[i] - ranks[i] - ranks[i + 1]
    requires ranks[0] == 0 && ranks[|sizes|] == 0
    ensures AltSum(free) == AltSum(sizes)
  {
    Telescoping(sizes, ranks, free, |sizes|);
    assert free[..|sizes|] == free && sizes[..|sizes|] == sizes;
  }

  /** Group i is Z^(|C_i| - rank d_i - rank d_(i+1)) plus the torsion given by the divisors of d_(i+1). */
  predicate HomologyOf(buckets: seq<seq<Face>>, ranks: seq<Reduced>, groups: seq<Group>) {
    |groups| <= |buckets| && |ranks| == |groups| + 1 &&
    forall i :: 0 <= i < |groups| ==>
      groups[i] == Group(|buckets[i]| - ranks[i].rank - ranks[i + 1].rank, ranks[i + 1].divisors)
  }

  /**
    Euler characteristic of the result: when no map enters dimension 0 and none leaves
    the top dimension, the alternating sum of the free ranks equals the alternating sum
    of the stratum sizes.
  */
  lemma GroupsEuler(buckets: seq<seq<Face>>, ranks: seq<Reduced>, groups: seq<Group>)
    requires HomologyOf(buckets, ranks, groups)
    requires ranks[0].rank == 0 && ranks[|groups|].rank == 0
    ensures AltSum(FreeRanks(groups)) == AltSum(Sizes(buckets, |groups|))
  {
    var n := |groups|;
    var rs := seq(n + 1, i requires 0 <= i <= n => ranks[i].rank);
    EulerCharacteristic(Sizes(buckets, n), rs, FreeRanks(groups));
  }

  /** Group i: free rank |C_i| - rank d_i - rank d_(i+1), torsion the divisors of d_(i+1). */
  method Assemble(buckets: seq<seq<Face>>, ranks: seq<Reduced>, biggest: int) returns (groups: seq<Group>)
    requires biggest >= -1 && |buckets| == biggest + 1 && |ranks| == Max(biggest, 0) + 1
    ensures |groups| == Max(biggest, 0)
    ensures |groups| > 0 ==> groups[|groups| - 1].torsion == ranks[|groups|].divisors
    ensures HomologyOf(buckets, ranks, groups)
  {
    groups := [];
    for i := 0 to Max(biggest, 0)
      invariant |groups| == i
      invariant forall i' :: 0 <= i' < i ==>
        groups[i'] == Group(|buckets[i']| - ranks[i'].rank - ranks[i' + 1].rank, ranks[i' + 1].divisors)
    {
      var m := |buckets[i]|;
      var s := ranks[i].rank;
      var r := ranks[i + 1].rank;
      groups := groups + [Group(m - r - s, ranks[i + 1].divisors)];
    }
  }

  /** Every face of stratum k has size k + 1 and comes from `fset`; every non-empty face of `fset` is in its stratum. */
  ghost predicate Stratified(fset: seq<Face>, buckets: seq<seq<Face>>) {
    (forall k, a :: 0 <= k < |buckets| && 0 <= a < |buckets[k]| ==>
       |buckets[k][a]| == k + 1 && buckets[k][a] in fset) &&
    (forall i :: 0 <= i < |fset| && fset[i] != [] ==> |fset[i]| - 1 < |buckets| && fset[i] in buckets[|fset[i]| - 1])
  }

  /**
    Bucket k holds exactly the faces of size k + 1, with their multiplicities; bucket 0
    keeps list order, every later bucket is sorted, and the last bucket is empty.
  */
  ghost predicate Strata(fset: seq<Face>, buckets: seq<seq<Face>>) {
    (|buckets| > 0 ==> buckets[0] == OfLength(fset, 1) && buckets[|buckets| - 1] == []) &&
    (forall k :: 0 <= k < |buckets| ==> multiset(buckets[k]) == multiset(OfLength(fset, k + 1))) &&
    (forall k :: 1 <= k < |buckets| ==> SortedBy(buckets[k], LexLe)) &&
    Stratified(fset, buckets)
  }

  /**
    The strata of `simp_hom`: the largest size, the faces grouped by size, and every
    stratum from 1 on sorted.
  */
  method Stratify(fset: seq<Face>) returns (buckets: seq<seq<Face>>, biggest: int)
    requires forall f :: f in fset ==> StrictlySorted(f)
    ensures biggest >= -1 && |buckets| == biggest + 1
    ensures forall f :: f in fset ==> |f| <= biggest
    ensures fset == [] <==> biggest == -1
    ensures fset != [] ==> exists f :: f in fset && |f| == biggest
    ensures Strata(fset, buckets)
  {
    biggest := LargestFaceSize(fset);
    var grouped := GroupBySize(fset, biggest);
    forall k, j | 0 <= k < |grouped| && 0 <= j < |grouped[k]|
      ensures StrictlySorted(grouped[k][j])
    {
      assert grouped[k][j] in OfLength(fset, k + 1);
      OfLengthMember(fset, k + 1, grouped[k][j]);
    }
    buckets := SortBuckets(grouped);
    forall k | 0 <= k < |buckets|
      ensures multiset(buckets[k]) == multiset(OfLength(fset, k + 1))
    {
      assert multiset(buckets[k]) == multiset(grouped[k]);
    }
    StratifiedBySize(fset, buckets);
    if |buckets| > 0 {
      TopStratumEmpty(fset, buckets, biggest);
      assert buckets[0] == grouped[0];
    }
  }

  lemma StratifiedBySize(fset: seq<Face>, buckets: seq<seq<Face>>)
    requires forall f :: f in fset ==> |f| <= |buckets|
    requires forall k :: 0 <= k < |buckets| ==> multiset(buckets[k]) == multiset(OfLength(fset, k + 1))
    ensures Stratified(fset, buckets)
  {
    forall k, a | 0 <= k < |buckets| && 0 <= a < |buckets[k]|
      ensures |buckets[k][a]| == k + 1 && buckets[k][a] in fset
    {
      var f := buckets[k][a];
      assert f in multiset(buckets[k]);
      OfLengthMember(fset, k + 1, f);
    }
    forall i | 0 <= i < |fset| && fset[i] != []
      ensures |fset[i]| - 1 < |buckets| && fset[i] in buckets[|fset[i]| - 1]
    {
      var f := fset[i];
      OfLengthMember(fset, |f|, f);
      assert f in multiset(buckets[|f| - 1]);
    }
  }

  /** No face is larger than the largest, so the last stratum is empty. */
  lemma TopStratumEmpty(fset: seq<Face>, buckets: seq<seq<Face>>, biggest: nat)
    requires forall f :: f in fset ==> |f| <= biggest
    requires |buckets| == biggest + 1
    requires multiset(buckets[biggest]) == multiset(OfLength(fset, biggest + 1))
    ensures buckets[biggest] == []
  {
    var top := OfLength(fset, biggest + 1);
    if top != [] {
      OfLengthMember(fset, biggest + 1, top[0]);
    }
    assert multiset(buckets[biggest]) == multiset{};
  }

  /** Strata of a downward closed list of ascending faces, with their dictionaries, are fit for the boundary step. */
  lemma StratifiedIndexed(fset: seq<Face>, buckets: seq<seq<Face>>, orders: seq<map<Face, int>>)
    requires forall f :: f in fset ==> StrictlySorted(f)
    requires DownwardClosed(fset)
    requires Stratified(fset, buckets)
    requires |orders| == |buckets| && forall k :: 0 <= k < |buckets| ==> IsIndex(orders[k], buckets[k])
    ensures IndexedStrata(buckets, orders)
  {
    StrataAscending(fset, buckets);
    FacetsInLowerStrata(fset, buckets);
  }

  /** Every face of every stratum has the stratum's size and ascending vertices. */
  lemma StrataAscending(fset: seq<Face>, buckets: seq<seq<Face>>)
    requires forall f :: f in fset ==> StrictlySorted(f)
    requires Stratified(fset, buckets)
    ensures forall k, a :: 0 <= k < |buckets| && 0 <= a < |buckets[k]| ==>
      |buckets[k][a]| == k + 1 && StrictlySorted(buckets[k][a])
  {
  }

  /** Every facet of a face of stratum k > 0 lies in stratum k - 1. */
  lemma FacetsInLowerStrata(fset: seq<Face>, buckets: seq<seq<Face>>)
    requires DownwardClosed(fset)
    requires Stratified(fset, buckets)
    ensures forall k, a, j :: 0 < k < |buckets| && 0 <= a < |buckets[k]| && 0 <= j < |buckets[k][a]| ==>
      Delete(buckets[k][a], j) in buckets[k - 1]
  {
    forall k, a, j | 0 < k < |buckets| && 0 <= a < |buckets[k]| && 0 <= j < |buckets[k][a]|
      ensures Delete(buckets[k][a], j) in buckets[k - 1]
    {
      FacetInLowerStratum(fset, buckets, k - 1, a, j);
    }
  }

  /** A facet of a face in stratum k + 1 lies in stratum k. */
  lemma FacetInLowerStratum(fset: seq<Face>, buckets: seq<seq<Face>>, k: nat, a: nat, j: nat)
    requires DownwardClosed(fset)
    requires Stratified(fset, buckets)
    requires k + 1 < |buckets| && a < |buckets[k + 1]| && j < |buckets[k + 1][a]|
    ensures Delete(buckets[k + 1][a], j) in buckets[k]
  {
    var f := buckets[k + 1][a];
    var i :| 0 <= i < |fset| && fset[i] == f;
    var i' :| 0 <= i' < |fset| && fset[i'] == Delete(fset[i], j);
    assert |fset[i']| == k + 1;
  }

  /** The top stratum is empty, so the last map of the rank table is the sentinel: rank 0, no divisors. */
  lemma TopRankVanishes(buckets: seq<seq<Face>>, orders: seq<map<Face, int>>, ranks: seq<Reduced>,
                        mats: seq<Matrix>, snf: Matrix -> seq<int>)
    requires RankTable(buckets, orders, ranks, mats, snf)
    requires |buckets| > 0 && buckets[|buckets| - 1] == []
    ensures ranks[|ranks| - 1] == Reduced(0, [])
  {
    if |mats| > 0 {
      var i := |mats| - 1;
      assert BoundaryStep(buckets, orders, i, mats[i], ranks[i + 1], snf);
    }
  }

  /** The strata and their dictionaries, ready for the boundary step. */
  method StrataAndDictionaries(fset: seq<Face>) returns (buckets: seq<seq<Face>>, orders: seq<map<Face, int>>, biggest: int)
    requires forall f :: f in fset ==> StrictlySorted(f)
    requires DownwardClosed(fset)
    ensures biggest >= -1 && |buckets| == biggest + 1
    ensures forall f :: f in fset ==> |f| <= biggest
    ensures fset == [] <==> biggest == -1
    ensures fset != [] ==> exists f :: f in fset && |f| == biggest
    ensures Strata(fset, buckets)
    ensures |orders| == |buckets|
    ensures forall k :: 0 <= k < |buckets| ==> IsIndex(orders[k], buckets[k])
    ensures forall k :: 0 <= k < |buckets| && NoDup(buckets[k]) ==> PositionMap(orders[k], buckets[k])
    ensures IndexedStrata(buckets, orders)
  {
    buckets, biggest := Stratify(fset);
    orders := IndexBuckets(buckets);
    StratifiedIndexed(fset, buckets, orders);
  }

  /**
    The homology groups of a complex given by its list of faces, together with the
    strata, their dictionaries, the rank table and (as a proof aid) the boundary
    matrices. Faces must have ascending distinct vertices and the list must hold every
    facet of every face of size > 1; `snf` gives the Smith Normal Form diagonal.
  */
  method SimpHom(fset: seq<Face>, snf: Matrix -> seq<int>)
    returns (groups: seq<Group>, buckets: seq<seq<Face>>, orders: seq<map<Face, int>>,
             ranks: seq<Reduced>, ghost mats: seq<Matrix>)
    requires forall f :: f in fset ==> StrictlySorted(f)
    requires DownwardClosed(fset)
    requires SnfShape(snf)
    // one group per dimension below the largest face size
    ensures forall f :: f in fset ==> |f| <= |groups|
    ensures fset != [] ==> (exists f :: f in fset && |f| == |groups|) && |buckets| == |groups| + 1
    ensures fset == [] ==> groups == [] && buckets == []
    ensures Strata(fset, buckets)
    ensures |orders| == |buckets|
    ensures forall k :: 0 <= k < |buckets| ==> IsIndex(orders[k], buckets[k])
    ensures forall k :: 0 <= k < |buckets| && NoDup(buckets[k]) ==> PositionMap(orders[k], buckets[k])
    ensures RankTable(buckets, orders, ranks, mats, snf)
    ensures |ranks| == |groups| + 1 && ranks[|groups|] == Reduced(0, [])
    ensures HomologyOf(buckets, ranks, groups)
    ensures |groups| > 0 ==> groups[|groups| - 1].torsion == []
  {
    var biggest;
    buckets, orders, biggest := StrataAndDictionaries(fset);
    ranks, mats := BoundaryRanks(buckets, orders, biggest, snf);
    if biggest >= 0 {
      TopRankVanishes(buckets, orders, ranks, mats, snf);
    }
    groups := Assemble(buckets, ranks, biggest);
  }

  /**
    `simp_hom(big_to_small(faces))`, the way the program's examples call it: the closure
    of a list of faces with ascending vertices meets every requirement of `SimpHom`.
  */
  method ClosureHomology(faces: seq<Face>, snf: Matrix -> seq<int>)
    returns (fset: seq<Face>, groups: seq<Group>, buckets: seq<seq<Face>>, orders: seq<map<Face, int>>,
             ranks: seq<Reduced>, ghost mats: seq<Matrix>)
    requires forall f :: f in faces ==> StrictlySorted(f)
    requires SnfShape(snf)
    ensures faces <= fset && DownwardClosed(fset) && Elems(fset) <= Closure.Universe(faces)
    ensures forall f :: f in fset ==> StrictlySorted(f)
    ensures forall f :: f in fset ==> |f| <= |groups|
    ensures Strata(fset, buckets)
    ensures RankTable(buckets, orders, ranks, mats, snf)
    ensures HomologyOf(buckets, ranks, groups)
  {
    fset := Closure.BigToSmall(faces);
    forall f | f in fset
      ensures StrictlySorted(f)
    {
      assert f in Elems(fset);
      Closure.UniverseStrictlySorted(faces, f);
    }
    groups, buckets, orders, ranks, mats := SimpHom(fset, snf);
  }
}
