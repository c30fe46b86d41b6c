/**
  The up-tree (`up_tree`): a forest over the elements 0 .. size - 1 stored in one
  list. A negative entry marks a root and holds minus the size of its tree; any other
  entry is the parent. `find` compresses paths as it goes, `union` hangs the smaller
  tree under the root of the larger one, and `components` counts the roots.

  The partition the forest represents is kept in the ghost field `root` (the root of
  every element); `depth` bounds the distance to the root and gives the recursion of
  `Find` its measure.
*/
module Forests {

  /** The elements whose root is `r`. */
  ghost function MembersOf(root: seq<int>, r: int): set<int> {
    set z | 0 <= z < |root| && root[z] == r
  }

  /** The elements that are their own root: one per component. */
  ghost function RootsOf(root: seq<int>): set<int> {
    set z | 0 <= z < |root| && root[z] == z
  }

  /** The partition after the component rooted at `child` joins the one rooted at `parent`. */
  ghost function Merge(root: seq<int>, child: int, parent: int): (m: seq<int>)
    ensures |m| == |root|
    ensures forall z :: 0 <= z < |root| ==> m[z] == if root[z] == child then parent else root[z]
  {
    seq(|root|, z requires 0 <= z < |root| => if root[z] == child then parent else root[z])
  }

  /** A depth table after the tree rooted at `child` is hung one level lower. */
  ghost function Deepen(root: seq<int>, depth: seq<nat>, child: int): (d: seq<nat>)
    requires |depth| == |root|
    ensures |d| == |depth|
    ensures forall z :: 0 <= z < |depth| ==> d[z] == if root[z] == child then depth[z] + 1 else depth[z]
  {
    seq(|depth|, z requires 0 <= z < |depth| => if root[z] == child then depth[z] + 1 else depth[z])
  }

  /**
    The list `ns` stores a forest whose partition is `root`: roots are exactly the
    negative entries and their own roots, a parent lies in the same tree and less
    deep, and a root holds minus the size of its tree.
  */
  ghost predicate Forest(ns: seq<int>, root: seq<int>, depth: seq<nat>) {
    |root| == |ns| && |depth| == |ns| &&
    (forall x {:trigger root[x]} :: 0 <= x < |ns| ==> 0 <= root[x] < |ns| && root[root[x]] == root[x]) &&
    (forall x {:trigger ns[x]} :: 0 <= x < |ns| ==>
       (ns[x] < 0 <==> root[x] == x) && (ns[x] < 0 ==> depth[x] == 0)) &&
    (forall x {:trigger ns[x]} :: 0 <= x < |ns| && ns[x] >= 0 ==>
       ns[x] < |ns| && root[ns[x]] == root[x] && depth[ns[x]] < depth[x]) &&
    (forall r {:trigger ns[r]} :: 0 <= r < |ns| && ns[r] < 0 ==> -ns[r] == |MembersOf(root, r)|)
  }

  /** `after` has the same roots as `before`, with the same entries; only parent links differ. */
  ghost predicate SameRootEntries(before: seq<int>, after: seq<int>) {
    |after| == |before| &&
    forall z :: 0 <= z < |before| ==> (after[z] < 0 <==> before[z] < 0) && (before[z] < 0 ==> after[z] == before[z])
  }

  /** Pointing a non-root element straight at its root keeps the forest and its partition. */
  lemma CompressForest(ns: seq<int>, root: seq<int>, depth: seq<nat>, x: int)
    requires Forest(ns, root, depth) && 0 <= x < |ns| && ns[x] >= 0
    ensures Forest(ns[x := root[x]], root, depth)
    ensures SameRootEntries(ns, ns[x := root[x]])
  {
    var ns' := ns[x := root[x]];
    assert ns[root[x]] < 0;
    forall z | 0 <= z < |ns| && ns'[z] >= 0
      ensures ns'[z] < |ns| && root[ns'[z]] == root[z] && depth[ns'[z]] < depth[z]
    {
      if z != x {
        assert ns'[z] == ns[z];
      }
    }
    forall r | 0 <= r < |ns| && ns'[r] < 0
      ensures -ns'[r] == |MembersOf(root, r)|
    {
      assert ns[r] < 0;
    }
  }

  /** What `LinkForest` asks of its arguments: two distinct roots of one forest. */
  ghost predicate TwoRoots(ns: seq<int>, root: seq<int>, depth: seq<nat>, child: int, parent: int) {
    Forest(ns, root, depth) &&
    0 <= child < |ns| && 0 <= parent < |ns| && child != parent && ns[child] < 0 && ns[parent] < 0
  }

  /**
    Hanging the root `child` under the root `parent`: the forest now represents the
    merged partition, and `parent` holds minus the combined size.
  */
  lemma LinkForest(ns: seq<int>, root: seq<int>, depth: seq<nat>, child: int, parent: int)
    requires TwoRoots(ns, root, depth, child, parent)
    ensures Forest(ns[parent := ns[parent] + ns[child]][child := parent],
                   Merge(root, child, parent), Deepen(root, depth, child))
  {
    LinkKeepsRoots(ns, root, depth, child, parent);
    LinkKeepsLinks(ns, root, depth, child, parent);
    LinkKeepsSizes(ns, root, depth, child, parent);
  }

  lemma LinkKeepsRoots(ns: seq<int>, root: seq<int>, depth: seq<nat>, child: int, parent: int)
    requires TwoRoots(ns, root, depth, child, parent)
    ensures var root' := Merge(root, child, parent);
      forall x :: 0 <= x < |ns| ==> 0 <= root'[x] < |ns| && root'[root'[x]] == root'[x]
  {
    var root' := Merge(root, child, parent);
    assert root[child] == child && root[parent] == parent;
    forall x | 0 <= x < |ns|
      ensures 0 <= root'[x] < |ns| && root'[root'[x]] == root'[x]
    {
      var r := root[x];
      assert root[r] == r;
    }
  }

  lemma LinkKeepsLinks(ns: seq<int>, root: seq<int>, depth: seq<nat>, child: int, parent: int)
    requires TwoRoots(ns, root, depth, child, parent)
    ensures var ns', root', depth' := ns[parent := ns[parent] + ns[child]][child := parent],
                                      Merge(root, child, parent), Deepen(root, depth, child);
      (forall x :: 0 <= x < |ns| ==> (ns'[x] < 0 <==> root'[x] == x) && (ns'[x] < 0 ==> depth'[x] == 0)) &&
      (forall x :: 0 <= x < |ns| && ns'[x] >= 0 ==>
         ns'[x] < |ns| && root'[ns'[x]] == root'[x] && depth'[ns'[x]] < depth'[x])
  {
    var ns', root', depth' := ns[parent := ns[parent] + ns[child]][child := parent],
                              Merge(root, child, parent), Deepen(root, depth, child);
    assert root[child] == child && root[parent] == parent;
    forall x | 0 <= x < |ns|
      ensures (ns'[x] < 0 <==> root'[x] == x) && (ns'[x] < 0 ==> depth'[x] == 0)
    {
      if x != child && x != parent {
        assert ns'[x] == ns[x];
      }
    }
    forall x | 0 <= x < |ns| && ns'[x] >= 0
      ensures ns'[x] < |ns| && root'[ns'[x]] == root'[x] && depth'[ns'[x]] < depth'[x]
    {
      if x != child && x != parent {
        assert ns'[x] == ns[x];
      }
    }
  }

  lemma LinkKeepsSizes(ns: seq<int>, root: seq<int>, depth: seq<nat>, child: int, parent: int)
    requires TwoRoots(ns, root, depth, child, parent)
    ensures var ns', root' := ns[parent := ns[parent] + ns[child]][child := parent], Merge(root, child, parent);
      forall r :: 0 <= r < |ns| && ns'[r] < 0 ==> -ns'[r] == |MembersOf(root', r)|
  {
    var ns', root' := ns[parent := ns[parent] + ns[child]][child := parent], Merge(root, child, parent);
    MergeMembers(root, child, parent);
    forall r | 0 <= r < |ns| && ns'[r] < 0
      ensures -ns'[r] == |MembersOf(root', r)|
    {
      if r != parent {
        assert ns'[r] == ns[r];
      }
    }
  }

  /** Joining two components: `parent` gets both member sets, every other component keeps its own. */
  lemma MergeMembers(root: seq<int>, child: int, parent: int)
    requires child != parent
    ensures MembersOf(Merge(root, child, parent), parent) == MembersOf(root, child) + MembersOf(root, parent)
    ensures MembersOf(root, child) * MembersOf(root, parent) == {}
    ensures forall r :: r != child && r != parent ==> MembersOf(Merge(root, child, parent), r) == MembersOf(root, r)
  {
    var m := Merge(root, child, parent);
    forall r | r != child && r != parent
      ensures MembersOf(m, r) == MembersOf(root, r)
    {
      assert forall z :: 0 <= z < |root| ==> (m[z] == r <==> root[z] == r);
    }
  }

  /** Joining two distinct components removes exactly one root. */
  lemma MergeRoots(root: seq<int>, child: int, parent: int)
    requires 0 <= child < |root| && 0 <= parent < |root| && root[child] == child && root[parent] == parent
    requires child != parent
    ensures RootsOf(Merge(root, child, parent)) == RootsOf(root) - {child}
    ensures |RootsOf(Merge(root, child, parent))| == |RootsOf(root)| - 1
  {
    var m := Merge(root, child, parent);
    assert m[child] == parent;
    assert RootsOf(m) == RootsOf(root) - {child};
  }

  /** The elements below `m` whose root is `r`. */
  ghost function RootedBelow(root: seq<int>, r: int, m: nat): set<int>
    requires m <= |root|
  {
    set z | 0 <= z < m && root[z] == r
  }

  /** For the roots r < k: how many elements below `m` have root r, summed. */
  ghost function CountedBelow(root: seq<int>, m: nat, k: nat): int
    requires m <= |root| && k <= |root|
  {
    if k == 0 then 0
    else CountedBelow(root, m, k - 1) + (if root[k - 1] == k - 1 then |RootedBelow(root, k - 1, m)| else 0)
  }

  /** The sizes stored at the root entries among the first `k` entries of `ns`. */
  function StoredSizes(ns: seq<int>, k: nat): int
    requires k <= |ns|
  {
    if k == 0 then 0 else StoredSizes(ns, k - 1) + (if ns[k - 1] < 0 then -ns[k - 1] else 0)
  }

  lemma {:induction false} NoneCounted(root: seq<int>, k: nat)
    requires k <= |root|
    ensures CountedBelow(root, 0, k) == 0
  {
    if k > 0 {
      NoneCounted(root, k - 1);
      assert RootedBelow(root, k - 1, 0) == {};
    }
  }

  /** Taking element `m` into account adds one to the count of its root and to no other. */
  lemma {:induction false} CountStep(root: seq<int>, m: nat, k: nat)
    requires m < |root| && k <= |root|
    requires 0 <= root[m] < |root| && root[root[m]] == root[m]
    ensures CountedBelow(root, m + 1, k) == CountedBelow(root, m, k) + (if root[m] < k then 1 else 0)
  {
    if k > 0 {
      CountStep(root, m, k - 1);
      var r := k - 1;
      if root[m] == r {
        assert RootedBelow(root, r, m + 1) == RootedBelow(root, r, m) + {m};
        assert m !in RootedBelow(root, r, m);
      } else {
        assert RootedBelow(root, r, m + 1) == RootedBelow(root, r, m);
      }
    }
  }

  /** Every element is counted under exactly one root. */
  lemma {:induction false} AllCounted(root: seq<int>, m: nat)
    requires m <= |root|
    requires forall x :: 0 <= x < |root| ==> 0 <= root[x] < |root| && root[root[x]] == root[x]
    ensures CountedBelow(root, m, |root|) == m
  {
    if m == 0 {
      NoneCounted(root, |root|);
    } else {
      AllCounted(root, m - 1);
      CountStep(root, m - 1, |root|);
    }
  }

  lemma {:induction false} StoredSizesCounted(ns: seq<int>, root: seq<int>, depth: seq<nat>, k: nat)
    requires Forest(ns, root, depth) && k <= |ns|
    ensures StoredSizes(ns, k) == CountedBelow(root, |ns|, k)
  {
    if k > 0 {
      StoredSizesCounted(ns, root, depth, k - 1);
      var r := k - 1;
      assert MembersOf(root, r) == RootedBelow(root, r, |root|);
    }
  }

  /** The sizes stored at the roots add up to the number of elements. */
  lemma SizesSumToCount(ns: seq<int>, root: seq<int>, depth: seq<nat>)
    requires Forest(ns, root, depth)
    ensures StoredSizes(ns, |ns|) == |ns|
  {
    StoredSizesCounted(ns, root, depth, |ns|);
    AllCounted(root, |root|);
  }

  /** When every element is its own root there are as many roots as elements. */
  lemma {:induction false} IdentityRoots(root: seq<int>)
    requires forall i :: 0 <= i < |root| ==> root[i] == i
    ensures |RootsOf(root)| == |root|
  {
    if |root| > 0 {
      var init := root[..|root| - 1];
      IdentityRoots(init);
      assert RootsOf(root) == RootsOf(init) + {|root| - 1};
    }
  }

  /** In a partition whose roots are their own roots, the roots of all elements are exactly the fixed points. */
  lemma RootImage(root: seq<int>)
    requires forall x :: 0 <= x < |root| ==> 0 <= root[x] < |root| && root[root[x]] == root[x]
    ensures (set z | 0 <= z < |root| :: root[z]) == RootsOf(root)
  {
    forall r | r in RootsOf(root)
      ensures r in set z | 0 <= z < |root| :: root[z]
    {
      assert root[r] == r;
    }
  }
}

/** The up-tree itself: the list of entries and the operations that update it. */
module UnionFind {
  import opened Forests

  class UpTree {
    /** The size the tree was made with (a negative size gives an empty forest). */
    const size: int
    /** Per element: its parent, or minus the size of its tree when it is a root. */
    var nodes: seq<int>
    /** Per element: the root of its tree. */
    ghost var root: seq<int>
    /** Per element: 0 for a root, otherwise more than the depth of its parent. */
    ghost var depth: seq<nat>

    /** The number of elements: `size`, or 0 when `size` is negative. */
    function Count(): nat
      reads this
    {
      if size < 0 then 0 else size
    }

    /** The roots, one per component. */
    ghost function Roots(): set<int>
      reads this
    {
      RootsOf(root)
    }

    ghost predicate Valid()
      reads this
    {
      |nodes| == Count() && Forest(nodes, root, depth)
    }

    /** Every element starts as the root of a tree of size 1. */
    constructor(size: int)
      ensures Valid() && this.size == size
      ensures forall i :: 0 <= i < |nodes| ==> nodes[i] == -1
      ensures forall i :: 0 <= i < |nodes| ==> root[i] == i
      ensures |Roots()| == Count()
    {
      this.size := size;
      var n := if size < 0 then 0 else size;
      nodes := seq(n, _ => -1);
      root := seq(n, i => i);
      depth := seq(n, i => 0);
      new;
      forall r | 0 <= r < n
        ensures MembersOf(root, r) == {r}
      {
        assert forall z :: z in MembersOf(root, r) ==> z == r;
        assert r in MembersOf(root, r);
      }
      IdentityRoots(root);
    }

    /**
      The root of `x`'s tree. On the way back every visited element is hung directly
      under the root; the partition, every root entry and every tree size stay as they were.
    */
    method Find(x: int) returns (r: int)
      requires Valid() && 0 <= x < |nodes|
      modifies this
      ensures Valid() && root == old(root) && depth == old(depth)
      ensures r == root[x] && nodes[r] < 0
      ensures r != x ==> nodes[x] == r
      ensures SameRootEntries(old(nodes), nodes)
      decreases depth[x]
    {
      if nodes[x] < 0 {
        return x;
      }
      if nodes[nodes[x]] < 0 {
        return nodes[x];
      }
      r := Find(nodes[x]);
      CompressForest(nodes, root, depth, x);
      nodes := nodes[x := r];
      r := nodes[x];
    }

    /**
      Joins the components of `x` and `y`: the root of the smaller tree is hung under
      the root of the larger one (under `y`'s root on a tie), and the sizes add up.
      Nothing changes when both are already in one component.
    */
    method Union(x: int, y: int)
      requires Valid() && 0 <= x < |nodes| && 0 <= y < |nodes|
      modifies this
      ensures Valid()
      ensures root[x] == root[y]
      ensures var rx, ry := old(root[x]), old(root[y]);
        root == if rx == ry then old(root)
                else if old(nodes[ry]) <= old(nodes[rx]) then Merge(old(root), rx, ry)
                else Merge(old(root), ry, rx)
      ensures |Roots()| == if old(root[x] == root[y]) then old(|Roots()|) else old(|Roots()|) - 1
    {
      var sentinelX := Find(x);
      var sentinelY := Find(y);
      if sentinelX == sentinelY {
        return;
      }
      if nodes[sentinelY] <= nodes[sentinelX] {
        Link(sentinelX, sentinelY);
      } else {
        Link(sentinelY, sentinelX);
      }
    }

    /** Hangs the root `child` under the root `parent`; the size of `parent`'s tree grows by `child`'s. */
    method Link(child: int, parent: int)
      requires Valid() && 0 <= child < |nodes| && 0 <= parent < |nodes|
      requires child != parent && nodes[child] < 0 && nodes[parent] < 0
      modifies this
      ensures Valid()
      ensures |nodes| == old(|nodes|) && nodes[child] == parent && nodes[parent] == old(nodes[parent] + nodes[child])
      ensures forall z :: 0 <= z < |nodes| && z != child && z != parent ==> nodes[z] == old(nodes[z])
      ensures root == Merge(old(root), child, parent)
      ensures |Roots()| == old(|Roots()|) - 1
    {
      var ns := nodes;
      ghost var r0, d0 := root, depth;
      LinkForest(ns, r0, d0, child, parent);
      ns := ns[parent := ns[parent] + ns[child]];
      ns := ns[child := parent];
      nodes, root, depth := ns, Merge(r0, child, parent), Deepen(r0, d0, child);
      MergeRoots(r0, child, parent);
    }

    /** The number of components: the distinct roots found over all elements. */
    method Components() returns (n: int)
      requires Valid()
      modifies this
      ensures Valid() && root == old(root) && n == |Roots()|
      ensures SameRootEntries(old(nodes), nodes)
    {
      var roots: set<int> := {};
      for i := 0 to Count()
        invariant Valid() && root == old(root)
        invariant roots == set z | 0 <= z < i :: root[z]
        invariant SameRootEntries(old(nodes), nodes)
      {
        var r := Find(i);
        roots := roots + {r};
      }
      RootImage(root);
      n := |roots|;
    }

    /** The sizes stored at the roots add up to the number of elements. */
    lemma SizesSum()
      requires Valid()
      ensures StoredSizes(nodes, |nodes|) == Count()
    {
      SizesSumToCount(nodes, root, depth);
    }

    /** The roots of the partition are exactly the elements with a negative entry. */
    lemma RootsAreNegative()
      requires Valid()
      ensures Roots() == set r | 0 <= r < |nodes| && nodes[r] < 0
    {
    }
  }
}
