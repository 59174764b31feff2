# lab4 graph algorithms and containers, modelled in Dafny

This project models the core of the lab4 C++ library. That core has three parts.

Containers:
- `ArraySequence`: a growable array with `add`, `remove`, `contains`, `removeElement`, `get`, copy, assignment, equality and `sort`.
- `HashSet`: a set of keys stored in a `HashTable<T, bool>`.
- The hash-table iterator: a cursor over the buckets of the table.

Sorting:
- The comparators of `comparators.hpp`.
- The quicksort of `sorts_algs.hpp`. It skips the work when no adjacent pair is inverted, and otherwise partitions by Lomuto's scheme with the last element as pivot.

Graph algorithms of `calc_algs.hpp`:
- Greedy colouring.
- The union-find `DisjointSet`, with path compression and union by rank.
- Kruskal's minimum spanning forest.
- Dijkstra's shortest path, including the path reconstruction.

Each source file has a module of its own. Alongside them:
- `HashTables` holds the hash table that the set and the iterators work on.
- `Graphs` holds the graph value and undirected walk connectivity.

Source that changes state in place is modelled as imperative Dafny:
- the array sequence, hash table, set, iterator and disjoint set are classes;
- quicksort works on an `array`;
- the loops of the algorithms are `while` loops with invariants.

Each method is proved against a specification:
- sorting: a permutation of the input that is sorted under a strict weak order;
- Kruskal: a cycle-free edge set, ordered by weight, that connects every pair of vertices an edge of the graph connects;
- Dijkstra: a returned distance that is the weight of the returned path and no greater than the weight of any route from start to end;
- union-find: the map from each element to its root is updated exactly as the union of two sets.

Exceptions thrown by the source are modelled as error values (`Outcome`, `Result`).

Two observations about the source:
- When `end` is neither a vertex nor `start`, `dijkstra` reads `distances[end]`, and `operator[]` inserts the missing key. The model assumes the inserted value is a value-initialised `int`, that is 0 (see "Left out"). Under that assumption the function returns the path `[start]` with distance 0, and `Dijkstra.Dijkstra` states this outcome as written.
- `greedyColoring` is guaranteed to give a proper colouring when every edge is listed in the neighbour lists of both its endpoints and no vertex is its own neighbour (`Coloring.ProperColouring`). A self-loop always makes the colouring improper. An edge listed at only one endpoint can make it improper, depending on the vertex order.

## Model

| member | source | states |
|---|---|---|
| Comparators.IntDecreaseIsConverse | include/comparators.hpp:9-15 | compareIntIncrease is `<`, and compareIntDecrease is compareIntIncrease with its arguments swapped |
| Comparators.IntComparatorsAreStrictWeakOrders | include/comparators.hpp:9-15 | both int comparators are strict weak orders, so quicksort's guarantees apply to them |
| Comparators.StrictOrderAsymmetric | include/comparators.hpp:9-31 | a strict order is never true in both directions |
| Comparators.LexLessOfPrefix | include/comparators.hpp:25-27 | a proper prefix is below the longer string |
| Comparators.LexLessOfDifference | include/comparators.hpp:25-27 | at the first differing position, the string with the smaller character is below |
| Comparators.LexLessCases | include/comparators.hpp:25-27 | `a < b` only for one of those two reasons |
| Comparators.LexLessCharacterised | include/comparators.hpp:25-27 | std::string `<` holds iff `a` is a proper prefix of `b` or `a` has the smaller character at the first difference |
| Comparators.LexLessIrreflexive | include/comparators.hpp:25-27 | no string is below itself |
| Comparators.LexLessTransitive | include/comparators.hpp:25-27 | string order is transitive |
| Comparators.LexLessTotal | include/comparators.hpp:25-27 | of two different strings, one is below the other |
| Comparators.StringComparatorsAreStrictWeakOrders | include/comparators.hpp:25-31 | compareStringIncrease and compareStringDecrease are strict weak orders |
| Sorting.SortedHasNoAdjacentInversion | include/sorts_algs.hpp:40-44 | a sorted sequence passes the early-exit scan |
| Sorting.NoAdjacentInversionIsSorted | include/sorts_algs.hpp:40-44 | under a strict weak order, passing the early-exit scan means sorted, so returning early is right |
| Sorting.AllBelowPermuted | include/sorts_algs.hpp:32-33 | "all below the pivot" survives sorting a part |
| Sorting.NoneBelowPermuted | include/sorts_algs.hpp:32-33 | "none below the pivot" survives sorting a part |
| Sorting.JoinSorted | include/sorts_algs.hpp:30-33 | sorted left part + pivot + sorted right part is sorted when the parts are on the correct sides |
| Sorting.SliceMultiset | include/sorts_algs.hpp:32-33 | a permutation that fixes the outside also permutes the inside slice |
| Sorting.Swap | include/sorts_algs.hpp:27 | std::swap exchanges two cells and leaves the rest alone; the multiset is preserved |
| Sorting.CheckSorted | include/sorts_algs.hpp:40-43 | the flag is true iff no adjacent pair is inverted |
| Sorting.Partition | include/sorts_algs.hpp:20-30 | the old last element ends at `i + 1`; everything in `low..i` is below it and nothing in `i + 2..high` is; the cells are permuted and the outside is unchanged |
| Sorting.QuickSortInside | include/sorts_algs.hpp:19-35 | permutes `low..high` only, and sorts it when the comparator is a strict order |
| Sorting.QuickSortStep | include/sorts_algs.hpp:30-33 | the two recursive calls after partitioning leave `low..high` sorted |
| Sorting.Sort | include/sorts_algs.hpp:38-47 | permutes the first n cells and changes nothing past them; an input with no adjacent inversion is left untouched; under a strict weak order the result is sorted |
| ArraySequences.ByWeightIsStrictWeakOrder | include/array_sequence.hpp:18-24 | comparing edges by weight is a strict weak order |
| ArraySequences.GrownCapacity | include/array_sequence.hpp:74-76 | growth always yields room for one more element |
| ArraySequences.FirstIndexOf | include/array_sequence.hpp:106-107 | the first position holding the element |
| ArraySequences.FirstIndexOfAt | include/array_sequence.hpp:106-107 | an occurrence with no earlier one is the first index |
| ArraySequences.ArraySequence.constructor | include/array_sequence.hpp:39 | a new sequence is empty |
| ArraySequences.ArraySequence.Copy | include/array_sequence.hpp:41-47 | the copy has the same elements and capacity in a fresh buffer |
| ArraySequences.ArraySequence.Assign | include/array_sequence.hpp:132-144 | afterwards the elements and capacity equal the other's; self-assignment changes nothing |
| ArraySequences.ArraySequence.Add | include/array_sequence.hpp:73-84 | appends the element; reallocates exactly when full |
| ArraySequences.ArraySequence.Get | include/array_sequence.hpp:118-130 | the element at the index, or IndexOutOfRange from the size onwards |
| ArraySequences.ArraySequence.CloseGap | include/array_sequence.hpp:90-93 | shifting left removes exactly the element at the index |
| ArraySequences.ArraySequence.Remove | include/array_sequence.hpp:86-94 | removes the element at the index, or fails with IndexOutOfRange and changes nothing |
| ArraySequences.ArraySequence.Contains | include/array_sequence.hpp:96-103 | true iff the element occurs |
| ArraySequences.ArraySequence.RemoveElement | include/array_sequence.hpp:105-116 | removes the first occurrence, or fails with ElementNotFound and changes nothing |
| ArraySequences.ArraySequence.Equals | include/array_sequence.hpp:161-171 | true iff both hold the same elements in the same order |
| ArraySequences.ArraySequence.Sort | include/array_sequence.hpp:67-71 | sort(custom): a permutation, untouched if already in order, sorted under a strict weak order |
| ArraySequences.ArraySequence.SortDefault | include/array_sequence.hpp:14-36 | sort(): edges by weight and ordered types by `<`; a permutation, untouched if no adjacent pair is inverted, sorted under a strict weak order; any other type fails with CannotSortThisType and is left unchanged |
| HashTables.NextValid | include/hash_table_iterators.hpp:15-26 | the first occupied slot at or after the cursor in bucket-major order, or the end sentinel; no occupied slot is skipped |
| HashTables.OccupiedFrom | include/hash_table_iterators.hpp:15-26 | every occupied slot from a position onwards, each once, in scan order |
| HashTables.OccupiedFromNextValid | include/hash_table_iterators.hpp:15-26 | moving to the next valid slot skips no occupied slot |
| HashTables.KeysAt | include/hash_table_iterators.hpp:43-48 | the keys read at a list of positions, one per position |
| HashTables.KeysAtPointwise | include/hash_table_iterators.hpp:43-48 | each key read is the key stored at that slot |
| HashTables.KeysAtCons | include/hash_table_iterators.hpp:43-48 | reading a list of positions is reading the first one, then the rest |
| HashTables.DistinctCardinality | include/set.hpp:27-29 | a list of distinct keys is as long as their set |
| HashTables.ScanKeysDistinct | include/set.hpp:34-40 | with unique keys, a full scan meets no key twice |
| HashTables.ScanKeysPresent | include/set.hpp:34-40 | a full scan meets exactly the keys present |
| HashTables.ScanMeetsEveryKeyOnce | include/set.hpp:34-40 | a full scan meets each key of the contents exactly once, and the number of occupied slots is the size |
| HashTables.FindInBucket | include/set.hpp:20 | the first occupied slot of a bucket holding the key, or none |
| HashTables.HashTable.constructor | include/set.hpp:12-13 | a table of the given capacity with no keys |
| HashTables.HashTable.Contains | include/set.hpp:20 | true iff the key is present |
| HashTables.HashTable.Insert | include/set.hpp:16 | the key is present afterwards and no other key changes |
| HashTables.HashTable.Remove | include/set.hpp:24 | removes a present key; an absent key fails with KeyNotFound and changes nothing |
| HashTables.HashTable.Size | include/set.hpp:28 | the number of keys present |
| HashTableIterators.HashTableIterator.FindNextValid | include/hash_table_iterators.hpp:15-26 | moves the cursor to NextValid of its old position |
| HashTableIterators.HashTableIterator.constructor | include/hash_table_iterators.hpp:35-41 | starts at NextValid of the requested position |
| HashTableIterators.HashTableIterator.End | include/hash_table_iterators.hpp:29-31 | the end sentinel (capacity, 0) |
| HashTableIterators.HashTableIterator.Deref | include/hash_table_iterators.hpp:43-49 | the (key, value) pair of the current slot, which is occupied whenever the iterator rests on a slot; at any position with `bucket_index >= capacity` it fails with "Iterator is out of range" |
| HashTableIterators.EqualsEndIffExhausted | include/hash_table_iterators.hpp:64-68 | `operator==` (`HashTableIterator.Equals`: same table, bucket and node) against end() on the same table holds iff no occupied slot is left to visit |
| HashTableIterators.HashTableIterator.Increment | include/hash_table_iterators.hpp:52-56 | moves to the next occupied slot after the current one |
| HashSets.HashSet.constructor | include/set.hpp:12-13 | an empty set with the given capacity |
| HashSets.HashSet.WithDefaultCapacity | include/set.hpp:12-13 | an empty set with capacity 4 |
| HashSets.HashSet.Insert | include/set.hpp:15-17 | adds the key to the set |
| HashSets.HashSet.Contains | include/set.hpp:19-21 | true iff the key is in the set |
| HashSets.HashSet.Remove | include/set.hpp:23-25 | removes the key from the set; an absent key fails with KeyNotFound |
| HashSets.HashSet.Size | include/set.hpp:27-29 | the number of keys in the set |
| HashSets.HashSet.Begin | include/set.hpp:34-36 | an iterator at the first occupied slot |
| HashSets.HashSet.End | include/set.hpp:38-40 | the end iterator |
| HashSets.ReadAndAdvance | include/hash_table_iterators.hpp:43-56 | `*it` then `++it` reads the current key and moves to the next occupied slot |
| HashSets.WalkToEnd | include/hash_table_iterators.hpp:52-68 | a range-for from `it` to `end` reads exactly the keys of the occupied slots from `it` on, in scan order |
| HashSets.IterateKeys | include/set.hpp:34-40 | iterating a set from begin() to end() yields each element exactly once and nothing else; the count is size() |
| Graphs.ConnectedReflexive | include/calc_algs.hpp:98-103 | every vertex is connected to itself |
| Graphs.ConnectedByEdge | include/calc_algs.hpp:98-103 | an edge connects its endpoints |
| Graphs.Reverse | include/calc_algs.hpp:161-164 | reversal, position by position |
| Graphs.ConnectedSymmetric | include/calc_algs.hpp:98-103 | undirected connectivity is symmetric |
| Graphs.ConnectedTransitive | include/calc_algs.hpp:98-103 | connectivity is transitive |
| Graphs.ConnectedMonotone | include/calc_algs.hpp:98-103 | adding edges keeps vertices connected |
| Graphs.WalkStaysInPart | include/calc_algs.hpp:98-103 | a labelling that every edge respects is constant along a walk |
| Graphs.ConnectedStaysInPart | include/calc_algs.hpp:98-103 | connected vertices carry the same label under such a labelling |
| Coloring.IndexOf | include/calc_algs.hpp:22-24 | a vertex's index is its position in adjacency-list order |
| Coloring.IndexOfDistinct | include/calc_algs.hpp:22-24 | with distinct vertices, the index of the k-th vertex is k |
| Coloring.ColoursBelowPrefix | include/calc_algs.hpp:32-37 | the forbidden colours depend only on the colours already assigned |
| Coloring.ColoursBelowSnoc | include/calc_algs.hpp:32-37 | scanning one more neighbour adds its colour when it has one |
| Coloring.ImageBound | include/calc_algs.hpp:39-44 | the first i vertices use at most i colours |
| Coloring.Palette | include/calc_algs.hpp:39 | the colours 0..n-1, n of them |
| Coloring.FreeColourExists | include/calc_algs.hpp:39-44 | the colour search always finds a colour below the vertex count |
| Coloring.SubsetCardinality | include/calc_algs.hpp:39-44 | a subset is no larger than its superset |
| Coloring.ProperColouring | include/calc_algs.hpp:15-48 | two adjacent vertices get different colours when the neighbour lists are symmetric and have no self-loops |
| Coloring.IndexVertices | include/calc_algs.hpp:19-24 | the index table maps each vertex to its position |
| Coloring.MarkForbidden | include/calc_algs.hpp:29-37 | `available[c]` is false exactly for the colours of already-coloured neighbours |
| Coloring.ClearColours | include/calc_algs.hpp:32-37 | the neighbour loop clears exactly the colours of already-coloured neighbours |
| Coloring.ExtendChoices | include/calc_algs.hpp:39-45 | colouring vertex i greedily keeps earlier vertices' choices greedy |
| Coloring.ColourVertex | include/calc_algs.hpp:39-44 | vertex i gets the least colour not forbidden, and nothing else changes |
| Coloring.GreedyColoring | include/calc_algs.hpp:15-48 | one colour per vertex in `0..vertex_count-1`, each the least colour that no earlier neighbour has |
| UnionFind.RootsWithin | include/calc_algs.hpp:62-67 | roots are elements, and every element's root is a root |
| UnionFind.ParentAbove | include/calc_algs.hpp:62-67 | a non-root's parent has strictly higher rank |
| UnionFind.Root | include/calc_algs.hpp:62-67 | following parents ends at a root of rank at least the start's |
| UnionFind.RootStep | include/calc_algs.hpp:62-67 | the root of x is x at a root, else the root of its parent |
| UnionFind.RootIgnoresRank | include/calc_algs.hpp:62-67 | the root does not depend on the rank table |
| UnionFind.CompressForest | include/calc_algs.hpp:63-64 | pointing v at its root keeps a forest with the same roots |
| UnionFind.Compress | include/calc_algs.hpp:63-64 | path compression changes no element's root |
| UnionFind.CompressAll | include/calc_algs.hpp:63-64 | path compression keeps the forest, the roots and the root map |
| UnionFind.FindStep | include/calc_algs.hpp:62-67 | one recursive step of findSet keeps the forest and the root map |
| UnionFind.Merge | include/calc_algs.hpp:73-82 | the root map after joining two sets has the same domain |
| UnionFind.Winner | include/calc_algs.hpp:74-80 | the root kept by union by rank is one of the two and has the higher rank |
| UnionFind.MergeSymmetric | include/calc_algs.hpp:69-83 | joining a with b is joining b with a |
| UnionFind.MergeSame | include/calc_algs.hpp:73 | joining a set with itself changes nothing |
| UnionFind.MergeSameSet | include/calc_algs.hpp:69-83 | after a join, two elements share a root iff they did before or they come from the two joined sets |
| UnionFind.LinkForest | include/calc_algs.hpp:74-75 | linking root r1 under r2 keeps a forest and drops r1 from the roots |
| UnionFind.Link | include/calc_algs.hpp:74-75 | after linking, members of r1's set have root r2 and the others are unchanged |
| UnionFind.LinkAll | include/calc_algs.hpp:74-75 | linking r1 under r2 merges the two sets into r2 in the root map |
| UnionFind.SingletonForest | include/calc_algs.hpp:57-60 | makeSet of a new element keeps a forest and adds one root |
| UnionFind.AddSingleton | include/calc_algs.hpp:57-60 | makeSet of a new element adds it as its own root in the root map |
| UnionFind.Extend | include/calc_algs.hpp:57-60 | adding a singleton changes no other element's root |
| UnionFind.LinkUnder | include/calc_algs.hpp:76-77 | linking r2 under the higher-ranked r1 merges the sets into r1 |
| UnionFind.PromoteLink | include/calc_algs.hpp:78-80 | on equal ranks, linking r2 under r1 and raising r1's rank merges the sets into r1 and keeps the rank order |
| UnionFind.Promote | include/calc_algs.hpp:80 | raising a root's rank keeps the forest and the root map |
| UnionFind.DisjointSet.constructor | include/calc_algs.hpp:50-55 | an empty disjoint-set forest |
| UnionFind.DisjointSet.MakeSet | include/calc_algs.hpp:57-60 | sets parent[v] = v and rank[v] = 0; a new v becomes a singleton set and the other sets are unchanged |
| UnionFind.DisjointSet.FindSet | include/calc_algs.hpp:62-67 | returns v's root and points v at it; no set changes |
| UnionFind.DisjointSet.LinkRoots | include/calc_algs.hpp:73-82 | union by rank: the lower-ranked root goes under the higher; on a tie root2 goes under root1 and root1's rank rises; the two sets are merged |
| UnionFind.DisjointSet.UnionSets | include/calc_algs.hpp:69-83 | merges the sets of the two elements into the one rooted at the winner by rank, and changes nothing else |
| Kruskal.SortedByWeight | include/calc_algs.hpp:95-96 | sorted under the edge order means non-decreasing weights |
| Kruskal.TracksSameSet | include/calc_algs.hpp:99 | when the root map tracks the chosen edges, findSet gives two vertices equal roots iff the chosen edges connect them |
| Kruskal.TracksSingletons | include/calc_algs.hpp:91-93 | singleton sets track the empty edge list |
| Kruskal.TracksUnion | include/calc_algs.hpp:99-102 | adding an edge and merging its endpoints' sets keeps the tracking |
| Kruskal.SingletonSets | include/calc_algs.hpp:89-93 | one singleton set per vertex; the root map tracks no edges |
| Kruskal.EdgeSequence | include/calc_algs.hpp:95 | getEdges copied into an array sequence |
| Kruskal.ScanEdge | include/calc_algs.hpp:98-102 | an edge is added iff its endpoints were not yet connected, and afterwards they are; the tracking and the edge-plus-set count are kept |
| Kruskal.SortedEdges | include/calc_algs.hpp:95-96 | the graph's edges, permuted into non-decreasing weight order |
| Kruskal.ScannedNone | include/calc_algs.hpp:98 | before the loop nothing is scanned |
| Kruskal.ScannedStep | include/calc_algs.hpp:98-103 | one iteration of the edge loop keeps the loop invariant |
| Kruskal.EndpointsAreVertices | include/calc_algs.hpp:91-99 | every sorted edge has both endpoints among the vertices |
| Kruskal.ScannedAll | include/calc_algs.hpp:98-104 | after the whole loop, the chosen edges are a sub-multiset of the graph's edges and connect the ends of every edge |
| Kruskal.ScanAll | include/calc_algs.hpp:98-103 | the edge loop: every edge scanned is connected by the chosen edges; each chosen edge joined two components |
| Kruskal.Kruskal | include/calc_algs.hpp:86-105 | the result is a sub-multiset of the graph's edges in non-decreasing weight; it is cycle-free; it connects the ends of every graph edge; it has fewer edges than vertices |
| Dijkstra.ViaIntro | include/calc_algs.hpp:143-145 | an edge from u to x justifies predecessor u at that edge's weight |
| Dijkstra.ViaEdge | include/calc_algs.hpp:143-145 | a recorded predecessor step is an edge of the graph |
| Dijkstra.Without | include/calc_algs.hpp:136 | removing the current vertex from the unvisited keys removes it and nothing else |
| Dijkstra.Initialise | include/calc_algs.hpp:113-118 | every vertex at INT_MAX and unvisited; start at 0 |
| Dijkstra.SelectMin | include/calc_algs.hpp:121-132 | found iff some unvisited vertex is below INT_MAX; the first unvisited vertex of least distance |
| Dijkstra.Other | include/calc_algs.hpp:140 | the endpoint opposite the current vertex |
| Dijkstra.RelaxNone | include/calc_algs.hpp:138 | before the edge loop nothing is relaxed |
| Dijkstra.RelaxAll | include/calc_algs.hpp:138-148 | after the edge loop, every neighbour's distance is at most the current distance plus the edge weight |
| Dijkstra.RelaxSkip | include/calc_algs.hpp:139-143 | an edge that does not improve a distance keeps the loop invariant |
| Dijkstra.RelaxTake | include/calc_algs.hpp:143-146 | an improving edge sets distance and predecessor and keeps the loop invariant |
| Dijkstra.Relax | include/calc_algs.hpp:138-148 | relaxes every edge at the current vertex: each neighbour's distance drops to at most current + weight, and every change records current as predecessor |
| Dijkstra.ExploredInit | include/calc_algs.hpp:113-118 | the initial tables satisfy the main loop's invariant |
| Dijkstra.TreeStep | include/calc_algs.hpp:136-148 | visiting a vertex keeps the predecessor tree: every distance is the weight of the route its predecessors trace |
| Dijkstra.ExploredStep | include/calc_algs.hpp:120-149 | one iteration of the main loop keeps its invariant: visited vertices are final and no farther than unvisited ones |
| Dijkstra.WeightFront | include/calc_algs.hpp:141 | a route's weight is its first edge's weight plus the rest |
| Dijkstra.RouteReversed | include/calc_algs.hpp:138-140 | an undirected route reversed is a route of the same weight |
| Dijkstra.WeightNonNegative | include/calc_algs.hpp:141 | with non-negative edge weights, every route weighs at least 0 |
| Dijkstra.LowerBound | include/calc_algs.hpp:120-149 | a route from start either ends at a visited vertex and weighs at least that vertex's distance, or weighs at least the distance of some unvisited vertex |
| Dijkstra.RouteLeavesVertex | include/calc_algs.hpp:138-140 | a non-empty route starts at a vertex |
| Dijkstra.Settled | include/calc_algs.hpp:134-135 | when the loop stops, end's distance is at most the weight of any route to it |
| Dijkstra.Explore | include/calc_algs.hpp:109-149 | the tables form a predecessor tree of exact route weights, and end's distance is a lower bound on every route from start to end |
| Dijkstra.RouteExtend | include/calc_algs.hpp:155-158 | extending a route by an edge adds the edge's weight |
| Dijkstra.Trace | include/calc_algs.hpp:151-159 | following predecessors from end reaches start, along a route whose weight is end's distance |
| Dijkstra.Reversed | include/calc_algs.hpp:161-164 | the path in reverse order |
| Dijkstra.Dijkstra | include/calc_algs.hpp:107-169 | distance INT_MAX iff the path is empty; otherwise the path runs from start to end along graph edges and weighs exactly the distance; no route from start to end is lighter; if some route weighs less than INT_MAX, the distance is below INT_MAX |

## Left out

- Input and output, rendering, graph generation, `main.cpp` and the tests are not modelled.
- graph.hpp is not part of this model. The graph is a value: its vertices in adjacency-list order, its neighbour lists and its edge list. `getEdges` returns a fresh copy.
- hash_table.hpp is not part of this model. `HashTables.HashTable` follows its documented behaviour: separate chaining, overwrite of a present key, and removal by clearing the occupied flag. Resizing, rehashing and the hash function's spread are not modelled. The hash is a parameter.
- `HashTable::operator[]` on a missing key inserts it (include/calc_algs.hpp:58, 115 rely on that). Which value it inserts is in hash_table.hpp; the model assumes a value-initialised `V`, so a missing distance reads as 0 (`Dijkstra.Lookup`).
- HashTables.HashTable.constructor and HashSets.HashSet.constructor: require a positive capacity. What `HashTable(0)` does is in hash_table.hpp, and every caller shown uses the default capacity 4.
- The order in which a hash table yields its keys is not derivable without hash_table.hpp. Dijkstra's unvisited set and the graph's adjacency list are iterated in the order their vertices were added.
- The float comparators are not modelled, because the model has no floating point.
- `ISorter` is only an interface, so it is not modelled.
- Move construction and move assignment are not modelled. The move constructor also stores `capacity` into `size`.
- `Sequence::resize` (sequence.hpp) is not part of this model.
- ArraySequences.GrownCapacity: states only that the new capacity exceeds the old, because the growth rule lives in `Sequence::resize`.
- The `ArraySequence(size)` constructor is modelled only for size 0, the default.
- `KeyIterator`, `ValueIterator`, postfix `++` and `!=` are not modelled. They are thin wrappers over the iterator that is modelled.
- `ConstHashTableIterator` is a copy of `HashTableIterator` over a const table, so one class models both.
- HashTableIterators.HashTableIterator.Deref: below the end bucket the cursor must name a slot of its bucket. The constructor and `operator++` reach no other position, and there the source would throw from the bucket's own `get`.
- The null-table check of the iterator constructor is not modelled, because a Dafny reference cannot be null.
- `dijkstra` calls `unvisited.add`, but HashSet has only `insert`. It is modelled as `insert`.
- `sortImpl` names `U::vertex_type` for every element type. Arithmetic and string types do not have it. The dispatch is modelled as the intended three-way choice (`ArraySequences.ElementKind`).
- Integers are unbounded. `int` overflow in `distances[current] + edge.weight` is not modelled.
- Dijkstra.Dijkstra: requires non-negative edge weights. With negative weights the source gives no guarantee.
- Dijkstra.Dijkstra: an end reachable only by routes weighing INT_MAX or more may be reported as unreached. Such a distance cannot be told apart from "unreached" in the source.
- Kruskal.Kruskal: minimality of the total weight is not proved. The model proves the invariants that greedy minimality rests on: weight order, acyclicity, and that connectivity is preserved.
- Coloring.GreedyColoring: does not model `vertex_index_m[neighbor]` for a neighbour that is not a vertex, because a well-formed graph excludes it.
