/**
 * The graph the algorithms of include/calc_algs.hpp read.  Only its
 * observable interface is modelled: the vertices in the iteration order of
 * its adjacency list (the keys of a hash table, so each vertex once), the
 * neighbour list of each vertex, and the edge list with integer weights.
 *
 * Connectivity over an edge list is walk reachability, edges being
 * undirected: the notion Kruskal's invariants are stated in.
 */
module Graphs {
  import opened HashTables

  /** An edge {vertex1, vertex2} with its weight. */
  datatype Edge<T> = Edge(vertex1: T, vertex2: T, weight: int)

  datatype Graph<T> = Graph(vertices: seq<T>, neighbors: map<T, seq<T>>, edges: seq<Edge<T>>)

  /**
   * Each vertex once; a neighbour list for exactly the vertices; neighbours
   * and edge endpoints are vertices.
   */
  ghost predicate WellFormed<T(!new)>(g: Graph<T>) {
    && Distinct(g.vertices)
    && (forall v :: v in g.neighbors <==> v in g.vertices)
    && (forall v, w :: v in g.neighbors && w in g.neighbors[v] ==> w in g.vertices)
    && (forall e :: e in g.edges ==> e.vertex1 in g.vertices && e.vertex2 in g.vertices)
  }

  /** The edge e has x and y as its two endpoints, in either order. */
  predicate Joins<T(==)>(e: Edge<T>, x: T, y: T) {
    (e.vertex1 == x && e.vertex2 == y) || (e.vertex1 == y && e.vertex2 == x)
  }

  /** Some edge of es joins x and y. */
  ghost predicate Step<T(!new)>(es: seq<Edge<T>>, x: T, y: T) {
    exists e :: e in es && Joins(e, x, y)
  }

  /** Consecutive vertices of w are joined by edges of es. */
  ghost predicate IsWalk<T(!new)>(es: seq<Edge<T>>, w: seq<T>) {
    && |w| > 0
    && forall i :: 0 <= i < |w| - 1 ==> Step(es, w[i], w[i + 1])
  }

  /** Some walk over es leads from x to y. */
  ghost predicate Connected<T(!new)>(es: seq<Edge<T>>, x: T, y: T) {
    exists w :: IsWalk(es, w) && w[0] == x && w[|w| - 1] == y
  }

  lemma ConnectedReflexive<T(!new)>(es: seq<Edge<T>>, x: T)
    ensures Connected(es, x, x)
  {
    assert IsWalk(es, [x]);
  }

  /** An edge connects its endpoints. */
  lemma ConnectedByEdge<T(!new)>(es: seq<Edge<T>>, e: Edge<T>)
    requires e in es
    ensures Connected(es, e.vertex1, e.vertex2)
  {
    var w := [e.vertex1, e.vertex2];
    assert Joins(e, w[0], w[1]);
    assert IsWalk(es, w);
  }

  /** The reversed walk. */
  function Reverse<T>(w: seq<T>): (r: seq<T>)
    ensures |r| == |w|
    ensures forall i :: 0 <= i < |w| ==> r[i] == w[|w| - 1 - i]
  {
    if w == [] then [] else Reverse(w[1..]) + [w[0]]
  }

  lemma ConnectedSymmetric<T(!new)>(es: seq<Edge<T>>, x: T, y: T)
    requires Connected(es, x, y)
    ensures Connected(es, y, x)
  {
    var w :| IsWalk(es, w) && w[0] == x && w[|w| - 1] == y;
    var r := Reverse(w);
    forall i | 0 <= i < |r| - 1
      ensures Step(es, r[i], r[i + 1])
    {
      var j := |w| - 2 - i;
      assert r[i] == w[j + 1] && r[i + 1] == w[j];
      var e :| e in es && Joins(e, w[j], w[j + 1]);
      assert Joins(e, r[i], r[i + 1]);
    }
    assert IsWalk(es, r);
  }

  lemma ConnectedTransitive<T(!new)>(es: seq<Edge<T>>, x: T, y: T, z: T)
    requires Connected(es, x, y) && Connected(es, y, z)
    ensures Connected(es, x, z)
  {
    var w1 :| IsWalk(es, w1) && w1[0] == x && w1[|w1| - 1] == y;
    var w2 :| IsWalk(es, w2) && w2[0] == y && w2[|w2| - 1] == z;
    var w := w1 + w2[1..];
    forall i | 0 <= i < |w| - 1
      ensures Step(es, w[i], w[i + 1])
    {
      if i < |w1| - 1 {
        assert w[i] == w1[i] && w[i + 1] == w1[i + 1];
      } else {
        var j := i - (|w1| - 1);
        assert w[i] == w2[j] && w[i + 1] == w2[j + 1];
      }
    }
    assert IsWalk(es, w);
  }

  /** A walk over es is a walk over any edge list holding every edge of es. */
  lemma ConnectedMonotone<T(!new)>(es: seq<Edge<T>>, larger: seq<Edge<T>>, x: T, y: T)
    requires Connected(es, x, y)
    requires forall e :: e in es ==> e in larger
    ensures Connected(larger, x, y)
  {
    var w :| IsWalk(es, w) && w[0] == x && w[|w| - 1] == y;
    forall i | 0 <= i < |w| - 1
      ensures Step(larger, w[i], w[i + 1])
    {
      assert Step(es, w[i], w[i + 1]);
      var e :| e in es && Joins(e, w[i], w[i + 1]);
      assert e in larger;
    }
    assert IsWalk(larger, w);
  }

  /**
   * A partition that agrees on the two ends of every edge agrees along every
   * walk: connected vertices get the same part.
   */
  lemma {:induction false} WalkStaysInPart<T(!new), L>(es: seq<Edge<T>>, part: map<T, L>, w: seq<T>)
    requires IsWalk(es, w) && w[0] in part
    requires forall e :: e in es ==> e.vertex1 in part && e.vertex2 in part && part[e.vertex1] == part[e.vertex2]
    ensures w[|w| - 1] in part && part[w[|w| - 1]] == part[w[0]]
    decreases |w|
  {
    if |w| > 1 {
      var e :| e in es && Joins(e, w[0], w[1]);
      assert IsWalk(es, w[1..]) by {
        forall i | 0 <= i < |w[1..]| - 1
          ensures Step(es, w[1..][i], w[1..][i + 1])
        {
          assert w[1..][i] == w[i + 1] && w[1..][i + 1] == w[i + 2];
          assert Step(es, w[i + 1], w[i + 2]);
        }
      }
      WalkStaysInPart(es, part, w[1..]);
    }
  }

  /** Connected vertices carry the same part under a partition every edge respects. */
  lemma ConnectedStaysInPart<T(!new), L>(es: seq<Edge<T>>, part: map<T, L>, x: T, y: T)
    requires Connected(es, x, y) && x in part
    requires forall e :: e in es ==> e.vertex1 in part && e.vertex2 in part && part[e.vertex1] == part[e.vertex2]
    ensures y in part && part[y] == part[x]
  {
    var w :| IsWalk(es, w) && w[0] == x && w[|w| - 1] == y;
    WalkStaysInPart(es, part, w);
  }
}
