# Simplicial homology over the integers: a Dafny model

`simplicial_homology.py` computes the integer homology groups of a finite simplicial
complex. The complex is given as a list of faces. Each face is a list of integer
vertex labels.

- `big_to_small` closes the list under taking facets, that is, deleting one vertex.
- `simp_hom` groups the faces into strata by size. It sorts every stratum above the
  vertices and gives every face its position in its stratum.
- For each pair of consecutive strata, `get_matrix` builds the integer matrix of the
  boundary map. `differential` produces the signed facets of one face.
- `get_nontrivial_elementary_divisors` reads the rank and the torsion coefficients
  (the diagonal entries of absolute value at least 2) off the Smith Normal Form of
  that matrix.
- Homology group `H_i` is `Z^(|C_i| - rank d_i - rank d_(i+1))`, plus the torsion
  summands of `d_(i+1)`.

The file also defines `up_tree`, a union–find structure with path compression and
union by size.

The model has seven modules:

- `Faces` (`faces.dfy`): faces, facet deletion, sortedness and downward closure.
- `Closure` (`closure.dfy`): `big_to_small` as a loop that grows a list of faces. It
  is proved to return the downward closure of its input: every facet is present, and
  nothing outside the subfaces of the input is added.
- `Boundary` (`boundary.dfy`):
  - `differential` as a signed chain of facets;
  - formal integer chains and their boundary;
  - the proof that the boundary of a boundary is zero;
  - `get_matrix` as a loop that fills a zero matrix, proved to put the sign of every
    facet in that facet's row and the face's column.
- `Divisors` (`divisors.dfy`): the loop that reads rank and divisors off a Smith
  Normal Form diagonal. The diagonal is an input.
- `Sorting` (`sorting.dfy`): the lexicographic list order that Python's `sort` uses
  on faces, and a sort specified as a sorted permutation.
- `Homology` (`homology.dfy`): the phases of `simp_hom`.
  - Largest face, grouping by size, sorting, dictionaries, rank table, assembly.
  - Every boundary-matrix lookup the source performs is proved to hit a face that is
    present, with a position that is unique.
  - The Euler relation is proved for the free ranks.
- `Forests` and `UnionFind` (`union_find.dfy`): `up_tree` as a class whose `nodes`
  list the methods update in place.
  - A ghost partition (the root of every element) and a ghost depth bound carry the
    invariant: roots hold minus the size of their tree, and every other entry is a
    parent in the same tree.
  - `find` is proved to return the root and to keep the partition.
  - `union` is proved to merge exactly the two components and, when x and y were in
    different components, to lower the component count by one; otherwise the partition
    and the count stay the same.
  - `components` is proved to return the number of roots.

The Euler relation holds for the free ranks alone. A variant that adds each
dimension's number of torsion divisors to its free rank does not hold. For the real
projective plane, with 6, 15 and 10 faces of sizes 1, 2 and 3:

- the alternating sum of stratum sizes is 1;
- the groups are Z, Z/2 and 0;
- the free ranks give 1 - 0 + 0 = 1;
- free rank plus divisor count gives 1 - 1 + 0 = 0.

## Model

| member | source | states |
|---|---|---|
| `Faces.Delete` | simplicial_homology.py:38 | deleting position j keeps the first j vertices, shifts the rest down by one and shortens the face by one |
| `Faces.DeletionsDistinct` | simplicial_homology.py:109-111 | the facets of a face with strictly ascending vertices are pairwise distinct, so the entries written for one column never collide |
| `Faces.DeleteStrictlySorted` | simplicial_homology.py:111 | a facet of a face with strictly ascending vertices again has strictly ascending vertices |
| `Closure.GrowByFacet` | simplicial_homology.py:38-41 | appending a new non-empty facet of a stored face keeps the closure loop's invariant: the input stays a prefix, appended faces are new and non-empty, every face is a subface of an input face |
| `Closure.AppendFacets` | simplicial_homology.py:37-41 | one inner pass appends only facets of face i (every face afterwards was stored before or is a facet of face i), never duplicates or empty faces, never drops a face, reports `additions_made` exactly when the list grew, and leaves every facet of face i in the list |
| `Closure.BigToSmall` | simplicial_homology.py:33-44 | the result extends the input and only appends new, non-empty, distinct faces; every facet of every face of size > 1 is present; every face is a subface of an input face; an input that is already closed comes back unchanged |
| `Closure.UniverseInClosedSet` | simplicial_homology.py:33-44 | every non-empty subface of the input lies in any facet-closed set containing the input, so the closure returned is the least one |
| `Closure.SubSeqsStrictlySorted` | simplicial_homology.py:38 | every subface of a face with strictly ascending vertices is strictly ascending and uses only that face's vertices |
| `Closure.UniverseStrictlySorted` | simplicial_homology.py:33-44 | when every input face is strictly ascending, so is every face the closure can append |
| `Closure.ProperSubSeqOfFacet` | simplicial_homology.py:38 | a proper subface of a face is a subface of one of its facets, so repeated deletion reaches every subface |
| `Boundary.Sign` | simplicial_homology.py:108-110 | the coefficient for position i is +1 or -1 |
| `Boundary.SignStep` | simplicial_homology.py:110 | consecutive positions get opposite signs |
| `Boundary.DifferentialFrom` | simplicial_homology.py:107-111 | the remaining iterations, starting from sign c at position i, give one entry per later position, with alternating signs and the face minus that vertex |
| `Boundary.Differential` | simplicial_homology.py:105-112 | one term per vertex; term i is the facet without vertex i with sign +1 for even i and -1 for odd i |
| `Boundary.DifferentialCons` | simplicial_homology.py:105-112 | the differential of a face with a vertex put in front is that face with sign +1, followed by the negated differential of the rest with the vertex put back in front |
| `Boundary.CoefDifferentialCons` | simplicial_homology.py:105-112 | the coefficient of any face in the differential of a·f, computed from the coefficient in the differential of f |
| `Boundary.BoundaryOfBoundary` | simplicial_homology.py:105-112 | applying the boundary twice gives every face the coefficient 0 (d∘d = 0) |
| `Boundary.CoefAppend` | simplicial_homology.py:111 | coefficients of a concatenated chain add up |
| `Boundary.CoefScale` | simplicial_homology.py:110-111 | scaling a chain scales every coefficient |
| `Boundary.ChainBoundaryAppend` | simplicial_homology.py:105-112 | the boundary of a chain is additive over concatenation |
| `Boundary.AssignKeepsRecorded` | simplicial_homology.py:100-101 | writing the sign of facet j of face i keeps the matrix shape, the columns already finished, and the facets 0..j-1 of face i |
| `Boundary.AssignKeepsOtherColumns` | simplicial_homology.py:101 | one assignment keeps the row count and changes no entry outside the column of face i |
| `Boundary.AssignFacets` | simplicial_homology.py:99-101 | only column `o1[s1[i]]` is written: every entry of every other column is unchanged, and every nonzero entry is the sign of some facet; when columns and facet rows are distinct, that column holds `Sign(k)` in row `o2[facet k]` for every facet k |
| `Boundary.GetMatrix` | simplicial_homology.py:90-103 | no domain faces gives the `[[]]` sentinel; otherwise a matrix of rank_s2 rows and rank_s1 columns; every nonzero entry is the sign of a facet; with distinct indices every facet sign is recorded in its row and its face's column |
| `Divisors.Nontrivial` | simplicial_homology.py:86-87 | every kept entry has absolute value at least 2, and there are no more of them than diagonal entries |
| `Divisors.NonzeroCount` | simplicial_homology.py:84-85 | the rank never exceeds the length of the diagonal |
| `Divisors.NontrivialCounts` | simplicial_homology.py:86-87 | each value of absolute value at least 2 occurs among the divisors exactly as often as on the diagonal |
| `Divisors.NonzeroCountCounts` | simplicial_homology.py:84-85 | the rank is the diagonal length minus the number of zero entries |
| `Divisors.NontrivialWithinRank` | simplicial_homology.py:80-88 | there are at most as many divisors as the rank, and the rank is at most the diagonal length |
| `Divisors.NontrivialInOrder` | simplicial_homology.py:82-87 | the divisors are a subsequence of the diagonal, in diagonal order |
| `Divisors.NontrivialKeepsChain` | simplicial_homology.py:82-87 | when each diagonal entry divides the next, as in a Smith Normal Form, each divisor divides the next |
| `Divisors.NontrivialElementaryDivisors` | simplicial_homology.py:63-88 | the `[[]]` sentinel gives no divisors and rank 0; otherwise the divisors are the nontrivial entries and the rank is the number of nonzero entries, at most min(rows, cols), with no more divisors than the rank |
| `Sorting.Insert` | simplicial_homology.py:131 | inserting into a sorted list gives a sorted list with exactly one more copy of the element |
| `Sorting.Sort` | simplicial_homology.py:130-131 | the result is sorted and is a permutation of the input |
| `Sorting.SortSorted` | simplicial_homology.py:130 | sorting a list that is already sorted returns it unchanged, so sorting a face with ascending vertices leaves it as it is |
| `Sorting.IntOrder` | simplicial_homology.py:130 | integer order is total and transitive |
| `Sorting.LexLeTotal` | simplicial_homology.py:131 | any two faces are comparable in list order |
| `Sorting.LexLeTransitive` | simplicial_homology.py:131 | list order is transitive |
| `Sorting.LexLeAntisymmetric` | simplicial_homology.py:131 | two faces each at most the other are equal |
| `Sorting.LexOrder` | simplicial_homology.py:131 | list order is total and transitive, so sorting a stratum is well defined |
| `Homology.LargestFaceSize` | simplicial_homology.py:115-117 | -1 for no faces; otherwise the size of some face, and at least the size of every face |
| `Homology.OfLengthMember` | simplicial_homology.py:124-125 | a face is appended to stratum n - 1 exactly when it occurs in the list with size n |
| `Homology.OfLengthCount` | simplicial_homology.py:124-125 | the stratum holds each face of its size as many times as the list does |
| `Homology.GroupBySize` | simplicial_homology.py:119-125 | biggest + 1 strata; stratum k is the faces of size k + 1 in list order, and empty faces go nowhere |
| `Homology.SortBuckets` | simplicial_homology.py:128-131 | stratum 0 is left as it is; every later stratum becomes a sorted permutation of itself |
| `Homology.IndexBucket` | simplicial_homology.py:134-135 | every face of the stratum is a key, and every key maps to a position holding that face; without repeated faces, every face maps to its own position |
| `Homology.IndexBuckets` | simplicial_homology.py:133-135 | one dictionary per stratum, each with the properties of `IndexBucket` |
| `Homology.TopStratumEmpty` | simplicial_homology.py:119-125 | the stratum of size biggest + 1 is empty |
| `Homology.StratifiedBySize` | simplicial_homology.py:119-131 | every face in stratum k has size k + 1 and comes from the list, and every non-empty face of the list is in its stratum |
| `Homology.StrataAscending` | simplicial_homology.py:125-130 | every face in stratum k has size k + 1 and strictly ascending vertices |
| `Homology.FacetInLowerStratum` | simplicial_homology.py:99-101 | in a downward-closed list, every facet of a face in stratum k + 1 is in stratum k, so the lookup `o2[...]` finds it |
| `Homology.FacetsInLowerStrata` | simplicial_homology.py:99-101 | the same fact for all strata at once |
| `Homology.StratifiedIndexed` | simplicial_homology.py:119-135 | for a downward-closed list of sorted faces, the strata and their dictionaries meet every requirement of `get_matrix` |
| `Homology.StrataIndexed` | simplicial_homology.py:140 | for every pair of consecutive strata, the column and row lookups succeed and are unique |
| `Homology.Stratify` | simplicial_homology.py:115-131 | faces grouped by size as a multiset, with stratum 0 in list order, later strata sorted and the top stratum empty |
| `Homology.StrataAndDictionaries` | simplicial_homology.py:115-135 | `Stratify`'s result together with dictionaries that index every stratum |
| `Homology.ReduceBoundary` | simplicial_homology.py:140-141 | the boundary matrix from stratum i + 1 to stratum i, with its rank at most min(rows, cols) and no more divisors than the rank, all nontrivial |
| `Homology.BoundaryRanks` | simplicial_homology.py:137-142 | a rank table starting with (0, []) and then one reduced boundary matrix per pair of consecutive strata |
| `Homology.TopRankVanishes` | simplicial_homology.py:139-142 | the last map, out of the empty top stratum, has rank 0 and no divisors |
| `Homology.Assemble` | simplicial_homology.py:144-150 | one group per dimension below the largest size; group i has free rank \|C_i\| - rank_i - rank_(i+1) and the divisors of map i + 1 as torsion |
| `Homology.Telescoping` | simplicial_homology.py:146-150 | on the first n dimensions, the rank terms of the alternating sum of free ranks telescope to the first and the n-th rank |
| `Homology.EulerCharacteristic` | simplicial_homology.py:146-150 | with no map into dimension 0 and none out of the top, the free ranks and the stratum sizes have the same alternating sum |
| `Homology.GroupsEuler` | simplicial_homology.py:137-150 | the groups `simp_hom` assembles satisfy the Euler relation |
| `Homology.ClosureHomology` | simplicial_homology.py:48-60 | `simp_hom(big_to_small(faces))` as the examples call it: for input faces with ascending vertices the closure extends the input, is downward closed, has only ascending faces, and meets every requirement of `SimpHom`, whose results it returns |
| `Homology.SimpHom` | simplicial_homology.py:114-150 | no faces gives no groups; otherwise one group per dimension below the largest face size, strata and dictionaries as above, each rank entry from that boundary matrix's Smith Normal Form, the groups as in `Assemble`, and no torsion in the top group |
| `Forests.CompressForest` | simplicial_homology.py:13 | pointing a non-root straight at its root keeps a valid forest with the same partition, roots and sizes |
| `Forests.LinkForest` | simplicial_homology.py:20-25 | hanging one root under another, with sizes added, is a valid forest for the merged partition |
| `Forests.MergeMembers` | simplicial_homology.py:21-25 | the surviving root gets the union of both member sets, which are disjoint, and every other tree keeps its members |
| `Forests.MergeRoots` | simplicial_homology.py:19-25 | linking two distinct roots removes exactly the child from the set of roots, so the component count drops by one |
| `Forests.IdentityRoots` | simplicial_homology.py:8 | when every element is its own root there are as many roots as elements |
| `Forests.CountStep` | simplicial_homology.py:20-25 | counting one more element adds one to the member count of its root and to no other |
| `Forests.AllCounted` | simplicial_homology.py:20-25 | summed over the roots, the member counts cover every element exactly once |
| `Forests.StoredSizesCounted` | simplicial_homology.py:21-25 | in a valid forest the sizes stored at the root entries are the member counts of those roots |
| `Forests.SizesSumToCount` | simplicial_homology.py:21-25 | in a valid forest the sizes stored at the roots add up to the number of elements |
| `Forests.RootImage` | simplicial_homology.py:28-31 | the set of roots of all elements is exactly the set of roots |
| `UnionFind.UpTree.constructor` | simplicial_homology.py:6-8 | every element is a root of size 1 and alone in its component, so there are as many components as elements |
| `UnionFind.UpTree.Find` | simplicial_homology.py:10-14 | returns the root of x's tree; the partition, the root entries and the tree sizes are unchanged; x now points at its root |
| `UnionFind.UpTree.Link` | simplicial_homology.py:20-25 | the child points at the parent, the parent's entry is the sum of both, no other entry changes, the partition is the merge, and one root fewer remains |
| `UnionFind.UpTree.Union` | simplicial_homology.py:16-25 | x and y end up in one component; the smaller tree's root goes under the larger one's (under y's root on a tie); the component count drops by one exactly when they were apart |
| `UnionFind.UpTree.Components` | simplicial_homology.py:27-31 | returns the number of roots, that is the number of components, and keeps the partition and the root entries |
| `UnionFind.UpTree.SizesSum` | simplicial_homology.py:21-25 | the sizes stored at the roots, -nodes[r] for every negative entry, add up to `size` |
| `UnionFind.UpTree.RootsAreNegative` | simplicial_homology.py:11 | the roots are exactly the elements with a negative entry |

## Left out

- The Smith Normal Form reduction (simplicial_homology.py:65-79). It is done by the `smithnormalform` library, which is not part of this model. Its diagonal is the parameter `snf`, which is constrained only to return min(rows, cols) entries. Divisibility along that diagonal is not assumed; `Divisors.NontrivialKeepsChain` states what follows when it holds.
- The retry loop around the reduction, which sleeps 0.2 s after any exception. No failure of the reduction is modelled.
- `main` (lines 46-60) and the printing at the end of `simp_hom` (lines 152-164). Apart from one case they are output only. For an empty face list no loop binds `i`, so line 164 raises `UnboundLocalError`. For that input `Homology.SimpHom` returns no groups and the error is not modelled.
- `json.dumps` keys. The dictionaries are keyed by the faces themselves. `json.dumps` is injective on lists of integers, so the lookups agree.
- In-place list aliasing. `big_to_small` appends to its argument and returns that same list, and `simp_hom` sorts the caller's face lists in place. The model works on sequence values. `Homology.SimpHom` requires faces with strictly ascending vertices, so sorting a face leaves it unchanged (`Sorting.SortSorted`) and the caller sees no difference.
- `Homology.SimpHom`: stated only for a downward-closed list of faces with strictly ascending vertices. `Homology.Stratify`, `Homology.StrataAndDictionaries` and `Homology.SortBuckets` carry the same requirement on the faces.
  - Lookups do not fail on a downward-closed list with unsorted faces. Line 130 sorts every face of size at least 2 in place, and sorting a face commutes with deleting a vertex, so every facet lookup at line 101 still succeeds.
  - The requirement is there for a different reason. Two stored orderings of one face, such as `[0, 2]` and `[2, 0]`, become equal at line 130. Line 135 then gives both the same index, and the other index's row or column of the matrix stays zero. So |C_k| at line 147 counts the face twice, and the free rank of H_k comes out one too high for each extra copy. The ranks and divisors are not affected.
  - Lists with unsorted faces are outside this contract. That includes the circle example at line 56: its closure holds `[2, 0]`.
  - The in-place sort of unsorted faces at line 130 is not modelled.
- `Boundary.GetMatrix`: requires every face of `s1` to be a key of `o1` with a column index in 0 .. |s1| - 1, and every facet to be a key of `o2` with a row index in 0 .. |s2| - 1. The source raises `KeyError` for a missing key and `IndexError` for an index past the end. A negative index writes to an entry counted from the end. None of these paths is modelled.
- `Divisors.NontrivialElementaryDivisors`: requires a matrix with at least one row. The source would raise `IndexError` on a matrix with no rows, which `simp_hom` never passes to it.
- `Sorting.Sort`: insertion sort stands in for Python's sort. It is specified by its result (sorted, and a permutation). That sorted permutation is unique, because list order is antisymmetric (`Sorting.LexLeAntisymmetric`), but the uniqueness is not proved as a separate lemma.
- `UnionFind.UpTree.Find`: requires 0 <= x < size. Python would also accept a negative x, indexing from the end, and raises `IndexError` beyond that. Python's recursion limit on long paths is not modelled. The new entry is stated only for x; the entries that the recursive call rewrites further up the path are described only by the forest invariant and by keeping every root entry.
- `UnionFind.UpTree.Union`: the new `nodes` list is described through the forest invariant, the new partition and the component count. The individual entries are not listed, because path compression in the two `find` calls also changes them.
- `UnionFind.UpTree.Components`: the entries rewritten by path compression are described only by the forest invariant and by keeping every root entry.
- The `size` field is kept as given. A negative size gives an empty list, as `[-1] * size` does.
- The matrix form of boundary-of-boundary is not proved: the product of the boundary matrices for consecutive dimensions being zero. `Boundary.BoundaryOfBoundary` proves d∘d = 0 on formal chains. `Boundary.GetMatrix` states which facet sign each matrix entry holds. The step between the two is not part of the model: summing the product over the middle stratum and matching it with chain coefficients.
- Python integers are unbounded, so `int` needs no wrap-around.
