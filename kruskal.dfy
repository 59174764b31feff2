/**
 * kruskal of include/calc_algs.hpp: every vertex starts as a singleton set,
 * the edges are copied and sorted by weight, and each edge whose endpoints
 * lie in different sets is taken into the spanning forest `mst` and the two
 * sets are united.
 *
 * The proof keeps the union-find root map and the chosen edges in step:
 * two vertices share a root exactly when the chosen edges connect them.
 */
module Kruskal {
  import opened HashTables
  import opened Comparators
  import Sorting
  import opened ArraySequences
  import opened Graphs
  import opened UnionFind

  /** The weights never decrease along s. */
  ghost predicate ByWeight<T>(s: seq<Edge<T>>) {
    forall i, j :: 0 <= i < j < |s| ==> s[i].weight <= s[j].weight
  }

  /** The order the default sort() puts edges in. */
  function EdgeOrder<T>(): ElementKind<Edge<T>> {
    EdgeKind((e: Edge<T>) => e.weight)
  }

  /** Sorted under the edge comparator means non-decreasing weights. */
  lemma SortedByWeight<T>(s: seq<Edge<T>>)
    requires Sorting.Sorted(s, DefaultLess(EdgeOrder<T>()))
    ensures ByWeight(s)
  {
    forall i, j | 0 <= i < j < |s|
      ensures s[i].weight <= s[j].weight
    {
      assert !DefaultLess(EdgeOrder<T>())(s[j], s[i]);
    }
  }

  /**
   * The root map m and the chosen edges agree: every vertex is connected to
   * its root by chosen edges, and every chosen edge lies within one set.
   */
  ghost predicate Tracks<T(!new)>(m: map<T, T>, chosen: seq<Edge<T>>) {
    && (forall x :: x in m ==> Connected(chosen, x, m[x]))
    && (forall e :: e in chosen ==> e.vertex1 in m && e.vertex2 in m && m[e.vertex1] == m[e.vertex2])
  }

  /** Two vertices share a root exactly when the chosen edges connect them. */
  lemma TracksSameSet<T(!new)>(m: map<T, T>, chosen: seq<Edge<T>>, a: T, b: T)
    requires Tracks(m, chosen) && a in m && b in m
    ensures m[a] == m[b] <==> Connected(chosen, a, b)
  {
    if m[a] == m[b] {
      ConnectedSymmetric(chosen, b, m[b]);
      ConnectedTransitive(chosen, a, m[a], b);
    }
    if Connected(chosen, a, b) {
      ConnectedStaysInPart(chosen, m, a, b);
    }
  }

  /** With no edge chosen, every vertex is its own root. */
  lemma TracksSingletons<T(!new)>(m: map<T, T>)
    requires forall x :: x in m ==> m[x] == x
    ensures Tracks(m, [])
  {
    forall x | x in m
      ensures Connected([], x, m[x])
    {
      ConnectedReflexive([], x);
    }
  }

  /**
   * Taking the edge e between two different sets and merging them under
   * one of their roots keeps the root map and the chosen edges in step.
   */
  lemma TracksUnion<T(!new)>(m: map<T, T>, chosen: seq<Edge<T>>, e: Edge<T>, w: T)
    requires Tracks(m, chosen) && e.vertex1 in m && e.vertex2 in m
    requires w == m[e.vertex1] || w == m[e.vertex2]
    ensures Tracks(Merge(m, m[e.vertex1], m[e.vertex2], w), chosen + [e])
  {
    var a, b := e.vertex1, e.vertex2;
    var m' := Merge(m, m[a], m[b], w);
    var chosen' := chosen + [e];
    forall x | x in m ensures Connected(chosen', x, m[x]) {
      ConnectedMonotone(chosen, chosen', x, m[x]);
    }
    ConnectedByEdge(chosen', e);
    ConnectedSymmetric(chosen', a, m[a]);
    ConnectedTransitive(chosen', m[a], a, b);
    ConnectedTransitive(chosen', m[a], b, m[b]);
    ConnectedSymmetric(chosen', m[a], m[b]);
    forall x | x in m'
      ensures Connected(chosen', x, m'[x])
    {
      if m[x] == m[a] || m[x] == m[b] {
        if w == m[a] {
          if m[x] == m[b] {
            ConnectedTransitive(chosen', x, m[b], m[a]);
          }
        } else {
          if m[x] == m[a] {
            ConnectedTransitive(chosen', x, m[a], m[b]);
          }
        }
      }
    }
  }

  /**
   * Lines 88-93: a fresh DisjointSet with makeSet called on every vertex in
   * order; each vertex is the root of its own set.
   */
  method SingletonSets<T(==, !new)>(vs: seq<T>) returns (ds: DisjointSet<T>)
    requires Distinct(vs)
    ensures fresh(ds) && ds.Valid()
    ensures ds.parent.Keys == (set v | v in vs) && Roots(ds.parent) == ds.parent.Keys
    ensures |Roots(ds.parent)| == |vs|
    ensures Tracks(RootMap(ds.parent, ds.rank), [])
  {
    ds := new DisjointSet();
    var i := 0;
    while i < |vs|
      invariant 0 <= i <= |vs|
      invariant ds.Valid()
      invariant forall x :: x in ds.parent <==> x in vs[..i]
      invariant Roots(ds.parent) == ds.parent.Keys
      invariant forall x :: x in ds.parent ==> RootMap(ds.parent, ds.rank)[x] == x
    {
      assert vs[i] !in vs[..i];
      ds.MakeSet(vs[i]);
      assert vs[..i + 1] == vs[..i] + [vs[i]];
      i := i + 1;
    }
    assert vs[..i] == vs;
    assert ds.parent.Keys == set v | v in vs;
    DistinctCardinality(vs);
    TracksSingletons(RootMap(ds.parent, ds.rank));
  }

  /** getEdges(): a fresh ArraySequence holding the graph's edges in order. */
  method EdgeSequence<T(0, ==, !new)>(g: Graph<T>) returns (es: ArraySequence<Edge<T>>)
    ensures fresh(es) && fresh(es.data) && es.Valid() && es.Elements() == g.edges
  {
    es := new ArraySequence();
    var i := 0;
    while i < |g.edges|
      invariant 0 <= i <= |g.edges|
      invariant fresh(es) && fresh(es.data) && es.Valid() && es.Elements() == g.edges[..i]
    {
      es.Add(g.edges[i]);
      assert g.edges[..i + 1] == g.edges[..i] + [g.edges[i]];
      i := i + 1;
    }
    assert g.edges[..i] == g.edges;
  }

  /**
   * Lines 99-102 for one edge: if findSet differs on its endpoints, the edge
   * is appended to mst and the two sets are united.
   */
  method ScanEdge<T(0, ==, !new)>(ds: DisjointSet<T>, mst: ArraySequence<Edge<T>>, edge: Edge<T>, ghost n: nat)
    requires ds.Valid() && mst.Valid() && edge.vertex1 in ds.parent && edge.vertex2 in ds.parent
    requires Tracks(RootMap(ds.parent, ds.rank), mst.Elements())
    requires |mst.Elements()| + |Roots(ds.parent)| == n
    modifies ds, mst, mst.data
    ensures ds.Valid() && mst.Valid() && ds.parent.Keys == old(ds.parent.Keys)
    ensures Tracks(RootMap(ds.parent, ds.rank), mst.Elements())
    ensures |mst.Elements()| + |Roots(ds.parent)| == n
    ensures Connected(mst.Elements(), edge.vertex1, edge.vertex2)
    ensures mst.Elements() == old(mst.Elements())
      || (mst.Elements() == old(mst.Elements()) + [edge] && !Connected(old(mst.Elements()), edge.vertex1, edge.vertex2))
    ensures mst.data == old(mst.data) || fresh(mst.data)
  {
    ghost var chosen := mst.Elements();
    var root1 := ds.FindSet(edge.vertex1);
    var root2 := ds.FindSet(edge.vertex2);
    ghost var m := RootMap(ds.parent, ds.rank);
    assert m[edge.vertex1] == root1 && m[edge.vertex2] == root2;
    TracksSameSet(m, chosen, edge.vertex1, edge.vertex2);
    if root1 != root2 {
      RootsWithin(ds.parent, ds.rank, edge.vertex1);
      RootsWithin(ds.parent, ds.rank, edge.vertex2);
      mst.Add(edge);
      ds.UnionSets(edge.vertex1, edge.vertex2);
      TracksUnion(m, chosen, edge, Winner(old(ds.rank), root1, root2));
      ConnectedByEdge(mst.Elements(), edge);
    }
  }

  /**
   * Lines 95-96: the copied edge list sorted with the default comparator,
   * which orders edges by weight.
   */
  method SortedEdges<T(0, ==, !new)>(g: Graph<T>) returns (edges: ArraySequence<Edge<T>>)
    ensures fresh(edges) && fresh(edges.data) && edges.Valid()
    ensures multiset(edges.Elements()) == multiset(g.edges)
    ensures ByWeight(edges.Elements())
  {
    edges := EdgeSequence(g);
    var r := edges.SortDefault(EdgeOrder());
    ByWeightIsStrictWeakOrder((e: Edge<T>) => e.weight);
    SortedByWeight(edges.Elements());
  }

  /** No edge of chosen closes a cycle with the edges chosen before it. */
  ghost predicate CycleFree<T(!new)>(chosen: seq<Edge<T>>) {
    forall k :: 0 <= k < |chosen| ==> !Connected(chosen[..k], chosen[k].vertex1, chosen[k].vertex2)
  }

  /**
   * After the first i sorted edges have been scanned: the chosen edges are
   * some of them, in order of weight, no heavier than any edge still to
   * come, free of cycles, and they connect the endpoints of every scanned edge.
   */
  ghost predicate Scanned<T(!new)>(sorted: seq<Edge<T>>, i: int, chosen: seq<Edge<T>>) {
    && 0 <= i <= |sorted|
    && multiset(chosen) <= multiset(sorted[..i])
    && (i < |sorted| ==> forall e :: e in chosen ==> e.weight <= sorted[i].weight)
    && ByWeight(chosen)
    && CycleFree(chosen)
    && (forall k :: 0 <= k < i ==> Connected(chosen, sorted[k].vertex1, sorted[k].vertex2))
  }

  lemma ScannedNone<T(!new)>(sorted: seq<Edge<T>>)
    ensures Scanned(sorted, 0, [])
  {
    assert sorted[..0] == [];
  }

  /** Scanning edge i, whether it is taken or skipped, keeps Scanned. */
  lemma ScannedStep<T(!new)>(sorted: seq<Edge<T>>, i: int, before: seq<Edge<T>>, after: seq<Edge<T>>)
    requires ByWeight(sorted) && Scanned(sorted, i, before) && i < |sorted|
    requires Connected(after, sorted[i].vertex1, sorted[i].vertex2)
    requires after == before
      || (after == before + [sorted[i]] && !Connected(before, sorted[i].vertex1, sorted[i].vertex2))
    ensures Scanned(sorted, i + 1, after)
  {
    var edge := sorted[i];
    assert sorted[..i + 1] == sorted[..i] + [edge];
    forall k | 0 <= k < i + 1
      ensures Connected(after, sorted[k].vertex1, sorted[k].vertex2)
    {
      if k < i {
        ConnectedMonotone(before, after, sorted[k].vertex1, sorted[k].vertex2);
      }
    }
    if after != before {
      forall k | 0 <= k < |after|
        ensures !Connected(after[..k], after[k].vertex1, after[k].vertex2)
      {
        if k < |before| {
          assert after[..k] == before[..k];
        } else {
          assert after[..k] == before;
        }
      }
      forall a, b | 0 <= a < b < |after|
        ensures after[a].weight <= after[b].weight
      {
        if b == |before| {
          assert after[a] in before;
        } else {
          assert after[a] == before[a] && after[b] == before[b];
        }
      }
    }
  }

  /** The endpoints of the sorted copy are vertices of the graph. */
  lemma EndpointsAreVertices<T(!new)>(g: Graph<T>, sorted: seq<Edge<T>>)
    requires WellFormed(g) && multiset(sorted) == multiset(g.edges)
    ensures forall e :: e in sorted ==> e.vertex1 in (set v | v in g.vertices) && e.vertex2 in (set v | v in g.vertices)
  {
    forall e | e in sorted
      ensures e.vertex1 in g.vertices && e.vertex2 in g.vertices
    {
      assert e in multiset(g.edges);
    }
  }

  /** Once every sorted edge is scanned, Scanned yields Kruskal's promises. */
  lemma ScannedAll<T(!new)>(g: Graph<T>, sorted: seq<Edge<T>>, chosen: seq<Edge<T>>)
    requires multiset(sorted) == multiset(g.edges) && Scanned(sorted, |sorted|, chosen)
    ensures multiset(chosen) <= multiset(g.edges)
    ensures forall e :: e in g.edges ==> Connected(chosen, e.vertex1, e.vertex2)
  {
    assert sorted[..|sorted|] == sorted;
    forall e | e in g.edges
      ensures Connected(chosen, e.vertex1, e.vertex2)
    {
      assert e in multiset(sorted);
      var k :| 0 <= k < |sorted| && sorted[k] == e;
    }
  }

  /**
   * Lines 98-103: every sorted edge is scanned in order, each one taken
   * into mst when it joins two different sets.
   */
  method ScanAll<T(0, ==, !new)>(ds: DisjointSet<T>, mst: ArraySequence<Edge<T>>, sorted: seq<Edge<T>>, ghost n: nat)
    requires ds.Valid() && mst.Valid() && ByWeight(sorted)
    requires forall e :: e in sorted ==> e.vertex1 in ds.parent && e.vertex2 in ds.parent
    requires Tracks(RootMap(ds.parent, ds.rank), mst.Elements())
    requires |mst.Elements()| + |Roots(ds.parent)| == n
    requires Scanned(sorted, 0, mst.Elements())
    modifies ds, mst, mst.data
    ensures ds.Valid() && mst.Valid() && ds.parent.Keys == old(ds.parent.Keys)
    ensures |mst.Elements()| + |Roots(ds.parent)| == n
    ensures Scanned(sorted, |sorted|, mst.Elements())
  {
    var i := 0;
    while i < |sorted|
      invariant mst.Valid() && (mst.data == old(mst.data) || fresh(mst.data))
      invariant ds.Valid() && ds.parent.Keys == old(ds.parent.Keys)
      invariant Tracks(RootMap(ds.parent, ds.rank), mst.Elements())
      invariant |mst.Elements()| + |Roots(ds.parent)| == n
      invariant Scanned(sorted, i, mst.Elements())
    {
      var edge := sorted[i];
      ghost var before := mst.Elements();
      ScanEdge(ds, mst, edge, n);
      ScannedStep(sorted, i, before, mst.Elements());
      i := i + 1;
    }
  }

  /**
   * kruskal: the chosen edges come from the graph in non-decreasing weight
   * order, none closes a cycle with those before it, they connect the
   * endpoints of every graph edge, and there are fewer of them than vertices.
   */
  method Kruskal<T(0, ==, !new)>(g: Graph<T>) returns (mst: ArraySequence<Edge<T>>)
    requires WellFormed(g)
    ensures fresh(mst) && mst.Valid()
    ensures multiset(mst.Elements()) <= multiset(g.edges)
    ensures ByWeight(mst.Elements())
    ensures CycleFree(mst.Elements())
    ensures forall e :: e in g.edges ==> Connected(mst.Elements(), e.vertex1, e.vertex2)
    ensures |g.vertices| > 0 ==> |mst.Elements()| < |g.vertices|
    ensures |g.vertices| == 0 ==> mst.Elements() == []
  {
    mst := new ArraySequence();
    var ds := SingletonSets(g.vertices);
    ghost var n := |g.vertices|;
    var edges := SortedEdges(g);
    ghost var sorted := edges.Elements();
    EndpointsAreVertices(g, sorted);
    ScannedNone(sorted);
    ScanAll(ds, mst, edges.data[..edges.size], n);
    ScannedAll(g, sorted, mst.Elements());
    if n > 0 {
      RootsWithin(ds.parent, ds.rank, g.vertices[0]);
    }
  }
}
