/**
 * dijkstra of include/calc_algs.hpp: single-source shortest paths over the
 * undirected weighted edge list, stopping early once the target is the
 * nearest unvisited vertex, followed by the reconstruction of the path
 * from the predecessor table.
 *
 * INT_MAX marks an unreached vertex.  The distance and predecessor tables
 * are maps; the unvisited set is the sequence of its keys in iteration
 * order, taken to be the order the vertices were added in.
 *
 * The proof keeps a ghost visit order: every predecessor was visited
 * before the vertex it leads to, so following predecessors terminates, and
 * every distance is the weight of the route the predecessors trace.
 */
module Dijkstra {
  import opened HashTables
  import opened ArraySequences
  import opened Graphs

  /** INT_MAX of a 32-bit int: the distance of an unreached vertex. */
  const IntMax: int := 2147483647

  /** The vertices of g as a set. */
  ghost function Vertices<T>(g: Graph<T>): set<T> {
    set v | v in g.vertices
  }

  /** The search needs weights that are not negative. */
  ghost predicate NonNegative<T>(es: seq<Edge<T>>) {
    forall e :: e in es ==> e.weight >= 0
  }

  /**
   * distances[v] read through HashTable::operator[].  The table's body is
   * not part of this model; the model assumes a missing key is inserted
   * with a value-initialised int, so it reads as 0.
   */
  function Lookup<T>(distances: map<T, int>, v: T): int {
    if v in distances then distances[v] else 0
  }

  /** The total weight of a list of edges. */
  function Weight<T>(p: seq<Edge<T>>): int {
    if p == [] then 0 else Weight(p[..|p| - 1]) + p[|p| - 1].weight
  }

  /** The vertices w are visited in order along the edges p, taken from es. */
  ghost predicate Route<T(!new)>(es: seq<Edge<T>>, w: seq<T>, p: seq<Edge<T>>) {
    && |w| == |p| + 1
    && forall k :: 0 <= k < |p| ==> p[k] in es && Joins(p[k], w[k], w[k + 1])
  }

  /** Some edge of es of weight delta joins u and x (searched from the back). */
  ghost predicate Via<T(!new)>(es: seq<Edge<T>>, u: T, x: T, delta: int)
    decreases |es|
  {
    && |es| > 0
    && ((Joins(es[|es| - 1], u, x) && es[|es| - 1].weight == delta) || Via(es[..|es| - 1], u, x, delta))
  }

  /** The edge es[k] joining u and x witnesses Via. */
  lemma {:induction false} ViaIntro<T(!new)>(es: seq<Edge<T>>, k: nat, u: T, x: T)
    requires k < |es| && Joins(es[k], u, x)
    ensures Via(es, u, x, es[k].weight)
    decreases |es|
  {
    if k < |es| - 1 {
      ViaIntro(es[..|es| - 1], k, u, x);
    }
  }

  /** Via names an edge of es of weight delta joining u and x. */
  lemma {:induction false} ViaEdge<T(!new)>(es: seq<Edge<T>>, u: T, x: T, delta: int) returns (e: Edge<T>)
    requires Via(es, u, x, delta)
    ensures e in es && Joins(e, u, x) && e.weight == delta
    decreases |es|
  {
    if Joins(es[|es| - 1], u, x) && es[|es| - 1].weight == delta {
      e := es[|es| - 1];
    } else {
      e := ViaEdge(es[..|es| - 1], u, x, delta);
    }
  }

  /** Every edge at q has been relaxed: its other end is no farther than q plus its weight. */
  ghost predicate Relaxed<T(!new)>(es: seq<Edge<T>>, distances: map<T, int>, q: T) {
    forall e, y {:trigger Joins(e, q, y)} :: e in es && Joins(e, q, y) && q in distances && y in distances ==>
      distances[y] <= distances[q] + e.weight
  }

  /** No route from start to end weighs less than the distance recorded for end. */
  ghost predicate Shortest<T(!new)>(es: seq<Edge<T>>, start: T, end: T, distances: map<T, int>) {
    forall w, p :: Route(es, w, p) && w[0] == start && w[|w| - 1] == end ==> Lookup(distances, end) <= Weight(p)
  }

  /** Every edge of es has both ends in vs. */
  ghost predicate Endpoints<T>(es: seq<Edge<T>>, vs: set<T>) {
    forall e :: e in es ==> e.vertex1 in vs && e.vertex2 in vs
  }

  /**
   * The predecessor table as a tree rooted at start: order numbers the
   * visited vertices; each predecessor is visited, earlier than its
   * successor, and joined to it by an edge whose weight is the difference
   * of their distances; a vertex other than start without a predecessor is
   * unreached.
   */
  ghost predicate Tree<T(!new)>(es: seq<Edge<T>>, vs: set<T>, start: T, distances: map<T, int>, previous: map<T, T>,
                                order: map<T, nat>, count: nat) {
    && distances.Keys == vs + {start}
    && (forall x :: x in distances ==> 0 <= distances[x] <= IntMax)
    && distances[start] == 0
    && previous.Keys <= vs && start !in previous
    && (forall x :: x in order ==> x in vs && order[x] < count && distances[x] < IntMax)
    && (forall x {:trigger Parent(es, distances, previous, order, x)} :: x in previous ==> Parent(es, distances, previous, order, x))
    && (forall x :: x in vs && x !in previous && x != start ==> distances[x] == IntMax)
  }

  /**
   * x hangs from its predecessor: the predecessor is visited, earlier than x
   * if x is visited, and an edge whose weight is the difference of their
   * distances joins the two.
   */
  ghost predicate Parent<T(!new)>(es: seq<Edge<T>>, distances: map<T, int>, previous: map<T, T>,
                                  order: map<T, nat>, x: T) {
    && x in previous && x in distances && previous[x] in distances
    && previous[x] in order
    && Via(es, previous[x], x, distances[x] - distances[previous[x]])
    && (x in order ==> order[previous[x]] < order[x])
  }

  /**
   * The invariant of the main loop: the tree, the unvisited vertices are
   * exactly the vertices not yet visited, no visited vertex is farther than
   * an unvisited one, and the edges at every visited vertex are relaxed.
   */
  ghost predicate Explored<T(!new)>(es: seq<Edge<T>>, vs: set<T>, start: T, distances: map<T, int>, previous: map<T, T>,
                                    unvisited: seq<T>, order: map<T, nat>, count: nat) {
    && Tree(es, vs, start, distances, previous, order, count)
    && Distinct(unvisited)
    && (forall u :: u in unvisited ==> u in vs && u !in order)
    && (forall x :: x in vs ==> x in order || x in unvisited)
    && (forall v, u :: v in order && u in unvisited ==> distances[v] <= distances[u])
    && (forall q :: q in order ==> Relaxed(es, distances, q))
  }

  /**
   * What relaxing the edges at current does to the entry of x: its distance
   * only shrinks, and stays if it is no farther than current; it gets a
   * predecessor exactly when it had one or its distance shrank; a shrunk
   * distance is the distance of current plus the weight of an edge joining
   * current and x, and then current is its predecessor; otherwise the
   * predecessor stays.
   */
  ghost predicate Updated<T(!new)>(es: seq<Edge<T>>, current: T, distances0: map<T, int>, previous0: map<T, T>,
                                   distances: map<T, int>, previous: map<T, T>, x: T) {
    && x in distances0 && x in distances && current in distances0
    && distances[x] <= distances0[x]
    && (distances0[x] <= distances0[current] ==> distances[x] == distances0[x])
    && (x in previous <==> x in previous0 || distances[x] < distances0[x])
    && (distances[x] < distances0[x] ==>
          && previous[x] == current && distances[x] >= distances0[current]
          && Via(es, current, x, distances[x] - distances0[current]))
    && (x in previous0 && distances[x] == distances0[x] ==> previous[x] == previous0[x])
  }

  /**
   * What relaxing the edges at current does to the tables: every entry is
   * Updated, only entries of the distance table get a predecessor, and
   * afterwards every edge at current is relaxed.
   */
  ghost predicate RelaxedFrom<T(!new)>(es: seq<Edge<T>>, current: T, distances0: map<T, int>, previous0: map<T, T>,
                                       distances: map<T, int>, previous: map<T, T>)
    requires current in distances0
  {
    && distances.Keys == distances0.Keys
    && previous0.Keys <= previous.Keys <= previous0.Keys + distances0.Keys
    && (forall x {:trigger Updated(es, current, distances0, previous0, distances, previous, x)} :: x in distances0 ==>
          Updated(es, current, distances0, previous0, distances, previous, x))
    && (forall e, y {:trigger Joins(e, current, y)} :: e in es && Joins(e, current, y) && y in distances0 ==> distances[y] <= distances0[current] + e.weight)
  }

  /**
   * HashSet::remove on the unvisited keys: x leaves, the others keep their
   * order.
   */
  function Without<T(==, !new)>(s: seq<T>, x: T): (r: seq<T>)
    ensures forall y :: y in r <==> y in s && y != x
    ensures x !in s ==> r == s
    ensures Distinct(s) ==> Distinct(r)
    ensures Distinct(s) && x in s ==> |r| == |s| - 1
  {
    if s == [] then []
    else if s[0] == x then Without(s[1..], x)
    else
      assert Distinct(s) ==> s[0] !in s[1..];
      [s[0]] + Without(s[1..], x)
  }

  /**
   * Lines 113-118: every vertex at INT_MAX and unvisited, then start at 0
   * (inserted if it is not a vertex).
   */
  method Initialise<T(==, !new)>(g: Graph<T>, start: T) returns (distances: map<T, int>, unvisited: seq<T>)
    requires Distinct(g.vertices)
    ensures distances.Keys == Vertices(g) + {start} && distances[start] == 0
    ensures forall v :: v in Vertices(g) && v != start ==> distances[v] == IntMax
    ensures unvisited == g.vertices
  {
    distances := map[];
    unvisited := [];
    var i := 0;
    while i < |g.vertices|
      invariant 0 <= i <= |g.vertices|
      invariant distances.Keys == set v | v in g.vertices[..i]
      invariant forall v :: v in distances ==> distances[v] == IntMax
      invariant unvisited == g.vertices[..i]
    {
      var vertex := g.vertices[i];
      distances := distances[vertex := IntMax];
      if vertex !in unvisited {
        unvisited := unvisited + [vertex];
      }
      assert g.vertices[..i + 1] == g.vertices[..i] + [vertex];
      i := i + 1;
    }
    assert g.vertices[..i] == g.vertices;
    distances := distances[start := 0];
  }

  /**
   * Lines 121-132: the first unvisited vertex, in iteration order, of least
   * distance below INT_MAX; found is false when every unvisited vertex is
   * at INT_MAX.
   */
  method SelectMin<T(0, ==, !new)>(unvisited: seq<T>, distances: map<T, int>) returns (current: T, found: bool)
    requires forall u :: u in unvisited ==> u in distances && distances[u] <= IntMax
    ensures found <==> exists u :: u in unvisited && distances[u] < IntMax
    ensures found ==> current in unvisited && distances[current] < IntMax
    ensures found ==> forall u :: u in unvisited ==> distances[current] <= distances[u]
    ensures found ==> forall k :: 0 <= k < FirstIndexOf(unvisited, current) ==> distances[current] < distances[unvisited[k]]
  {
    current := *;
    var minDist := IntMax;
    found := false;
    var i := 0;
    while i < |unvisited|
      invariant 0 <= i <= |unvisited|
      invariant found <==> exists k :: 0 <= k < i && distances[unvisited[k]] < IntMax
      invariant !found ==> minDist == IntMax
      invariant found ==> current in unvisited[..i] && minDist == distances[current] < IntMax
      invariant forall k :: 0 <= k < i ==> minDist <= distances[unvisited[k]]
      invariant found ==> forall k :: 0 <= k < FirstIndexOf(unvisited, current) ==> minDist < distances[unvisited[k]]
    {
      var vertex := unvisited[i];
      if distances[vertex] < minDist {
        minDist := distances[vertex];
        current := vertex;
        found := true;
        assert FirstIndexOf(unvisited, current) <= i;
      }
      i := i + 1;
    }
    assert unvisited[..i] == unvisited;
  }

  /** The other end of an edge at current: vertex2 when vertex1 is current, else vertex1. */
  function Other<T(==)>(e: Edge<T>, current: T): (y: T)
    ensures (e.vertex1 == current || e.vertex2 == current) ==> Joins(e, current, y)
    ensures Joins(e, current, y) ==> Joins(e, current, Other(e, current))
  {
    if e.vertex1 == current then e.vertex2 else e.vertex1
  }

  /**
   * The state of Relax after its first i edges: RelaxedFrom with only
   * those edges relaxed, and the distance of current unchanged.
   */
  ghost predicate RelaxedUpTo<T(!new)>(es: seq<Edge<T>>, i: nat, current: T, distances0: map<T, int>, previous0: map<T, T>,
                                       distances: map<T, int>, previous: map<T, T>)
    requires current in distances0 && i <= |es|
  {
    && distances.Keys == distances0.Keys
    && distances[current] == distances0[current]
    && previous0.Keys <= previous.Keys <= previous0.Keys + distances0.Keys
    && (forall x {:trigger Updated(es, current, distances0, previous0, distances, previous, x)} :: x in distances0 ==>
          Updated(es, current, distances0, previous0, distances, previous, x))
    && (forall k, y {:trigger Joins(es[k], current, y)} :: 0 <= k < i && Joins(es[k], current, y) && y in distances0 ==>
          distances[y] <= distances0[current] + es[k].weight)
  }

  lemma RelaxNone<T(!new)>(es: seq<Edge<T>>, current: T, distances0: map<T, int>, previous0: map<T, T>)
    requires current in distances0
    ensures RelaxedUpTo(es, 0, current, distances0, previous0, distances0, previous0)
  {
  }

  /** Once every edge is relaxed, RelaxedUpTo is RelaxedFrom. */
  lemma RelaxAll<T(!new)>(es: seq<Edge<T>>, current: T, distances0: map<T, int>, previous0: map<T, T>,
                          distances: map<T, int>, previous: map<T, T>)
    requires current in distances0
    requires RelaxedUpTo(es, |es|, current, distances0, previous0, distances, previous)
    ensures RelaxedFrom(es, current, distances0, previous0, distances, previous)
  {
    forall e, y | e in es && Joins(e, current, y) && y in distances0
      ensures distances[y] <= distances0[current] + e.weight
    {
      var k :| 0 <= k < |es| && es[k] == e;
    }
  }

  /** An edge that offers nothing better leaves the tables as they are. */
  lemma RelaxSkip<T(!new)>(es: seq<Edge<T>>, i: nat, current: T, distances0: map<T, int>, previous0: map<T, T>,
                           distances: map<T, int>, previous: map<T, T>)
    requires current in distances0 && i < |es| && NonNegative(es)
    requires RelaxedUpTo(es, i, current, distances0, previous0, distances, previous)
    requires Other(es[i], current) in distances
    requires (es[i].vertex1 != current && es[i].vertex2 != current)
      || distances[current] + es[i].weight >= distances[Other(es[i], current)]
    ensures RelaxedUpTo(es, i + 1, current, distances0, previous0, distances, previous)
  {
    forall k, y | 0 <= k < i + 1 && Joins(es[k], current, y) && y in distances0
      ensures distances[y] <= distances0[current] + es[k].weight
    {
      if k == i {
        assert es[i] in es;
        assert y == Other(es[i], current) || y == current;
      }
    }
  }

  /** An edge that offers a shorter distance to its other end is taken. */
  lemma RelaxTake<T(!new)>(es: seq<Edge<T>>, i: nat, current: T, distances0: map<T, int>, previous0: map<T, T>,
                           distances: map<T, int>, previous: map<T, T>, y: T, newDist: int)
    requires current in distances0 && i < |es| && NonNegative(es)
    requires RelaxedUpTo(es, i, current, distances0, previous0, distances, previous)
    requires es[i].vertex1 == current || es[i].vertex2 == current
    requires y == Other(es[i], current) && y in distances
    requires newDist == distances[current] + es[i].weight < distances[y]
    ensures RelaxedUpTo(es, i + 1, current, distances0, previous0, distances[y := newDist], previous[y := current])
  {
    var distances', previous' := distances[y := newDist], previous[y := current];
    ViaIntro(es, i, current, y);
    assert es[i] in es;
    assert Updated(es, current, distances0, previous0, distances, previous, y);
    assert y != current;
    forall x | x in distances0
      ensures Updated(es, current, distances0, previous0, distances', previous', x)
    {
      assert Updated(es, current, distances0, previous0, distances, previous, x);
    }
    forall k, z | 0 <= k < i + 1 && Joins(es[k], current, z) && z in distances0
      ensures distances'[z] <= distances0[current] + es[k].weight
    {
      if k == i {
        assert z == y || z == current;
      } else {
        assert distances[z] <= distances0[current] + es[k].weight;
      }
    }
  }

  /**
   * Lines 138-148: every edge at current offers its other end the distance
   * of current plus the edge's weight; a strictly smaller offer is taken,
   * with current as the new predecessor.
   */
  method Relax<T(==, !new)>(es: seq<Edge<T>>, current: T, distances0: map<T, int>, previous0: map<T, T>)
    returns (distances: map<T, int>, previous: map<T, T>)
    requires current in distances0 && NonNegative(es)
    requires forall e :: e in es ==> e.vertex1 in distances0 && e.vertex2 in distances0
    ensures RelaxedFrom(es, current, distances0, previous0, distances, previous)
  {
    distances, previous := distances0, previous0;
    RelaxNone(es, current, distances0, previous0);
    var i := 0;
    while i < |es|
      invariant 0 <= i <= |es|
      invariant RelaxedUpTo(es, i, current, distances0, previous0, distances, previous)
    {
      var edge := es[i];
      assert edge in es;
      if edge.vertex1 == current || edge.vertex2 == current {
        var neighbor := Other(edge, current);
        var newDist := distances[current] + edge.weight;
        if newDist < distances[neighbor] {
          RelaxTake(es, i, current, distances0, previous0, distances, previous, neighbor, newDist);
          distances := distances[neighbor := newDist];
          previous := previous[neighbor := current];
        } else {
          RelaxSkip(es, i, current, distances0, previous0, distances, previous);
        }
      } else {
        RelaxSkip(es, i, current, distances0, previous0, distances, previous);
      }
      i := i + 1;
    }
    RelaxAll(es, current, distances0, previous0, distances, previous);
  }

  /** Before the main loop: nothing is visited and only start is reached. */
  lemma ExploredInit<T(!new)>(es: seq<Edge<T>>, vs: set<T>, start: T, distances: map<T, int>, unvisited: seq<T>)
    requires Distinct(unvisited) && vs == set v | v in unvisited
    requires distances.Keys == vs + {start} && distances[start] == 0
    requires forall v :: v in vs && v != start ==> distances[v] == IntMax
    ensures Explored(es, vs, start, distances, map[], unvisited, map[], 0)
  {
  }

  /** Visiting current and relaxing its edges keeps the tree. */
  lemma TreeStep<T(!new)>(es: seq<Edge<T>>, vs: set<T>, start: T, distances0: map<T, int>, previous0: map<T, T>,
                          order: map<T, nat>, count: nat, current: T,
                          distances: map<T, int>, previous: map<T, T>)
    requires Tree(es, vs, start, distances0, previous0, order, count)
    requires current in vs && current !in order && distances0[current] < IntMax
    requires forall v :: v in order ==> distances0[v] <= distances0[current]
    requires RelaxedFrom(es, current, distances0, previous0, distances, previous)
    ensures Tree(es, vs, start, distances, previous, order[current := count], count + 1)
  {
    var order' := order[current := count];
    assert Updated(es, current, distances0, previous0, distances, previous, current);
    assert Updated(es, current, distances0, previous0, distances, previous, start);
    forall x | x in distances
      ensures 0 <= distances[x] <= IntMax
      ensures x in vs && x !in previous && x != start ==> distances[x] == IntMax
      ensures x in order' ==> distances[x] < IntMax
    {
      assert Updated(es, current, distances0, previous0, distances, previous, x);
    }
    forall x | x in previous
      ensures Parent(es, distances, previous, order', x)
    {
      assert Updated(es, current, distances0, previous0, distances, previous, x);
      if distances[x] < distances0[x] {
        assert x != current && x !in order;
      } else {
        var p := previous0[x];
        assert Parent(es, distances0, previous0, order, x);
        assert Updated(es, current, distances0, previous0, distances, previous, p);
      }
    }
  }

  /**
   * One round of the main loop keeps the invariant: current, the nearest
   * unvisited vertex, is visited next, and its edges are relaxed.
   */
  lemma ExploredStep<T(!new)>(es: seq<Edge<T>>, vs: set<T>, start: T, distances0: map<T, int>, previous0: map<T, T>,
                              unvisited: seq<T>, order: map<T, nat>, count: nat, current: T,
                              distances: map<T, int>, previous: map<T, T>)
    requires Explored(es, vs, start, distances0, previous0, unvisited, order, count)
    requires current in unvisited && distances0[current] < IntMax
    requires forall u :: u in unvisited ==> distances0[current] <= distances0[u]
    requires RelaxedFrom(es, current, distances0, previous0, distances, previous)
    ensures Explored(es, vs, start, distances, previous, Without(unvisited, current), order[current := count], count + 1)
  {
    var order' := order[current := count];
    var unvisited' := Without(unvisited, current);
    TreeStep(es, vs, start, distances0, previous0, order, count, current, distances, previous);
    assert Updated(es, current, distances0, previous0, distances, previous, current);
    forall v, u | v in order' && u in unvisited'
      ensures distances[v] <= distances[u]
    {
      assert Updated(es, current, distances0, previous0, distances, previous, v);
      assert Updated(es, current, distances0, previous0, distances, previous, u);
    }
    forall q | q in order'
      ensures Relaxed(es, distances, q)
    {
      if q != current {
        assert Relaxed(es, distances0, q);
        assert Updated(es, current, distances0, previous0, distances, previous, q);
        forall e, y | e in es && Joins(e, q, y) && q in distances && y in distances
          ensures distances[y] <= distances[q] + e.weight
        {
          assert Updated(es, current, distances0, previous0, distances, previous, y);
        }
      }
    }
  }

  /** The weight of a route is the weight of its first edge plus the rest. */
  lemma {:induction false} WeightFront<T>(p: seq<Edge<T>>)
    requires |p| > 0
    ensures Weight(p) == p[0].weight + Weight(p[1..])
    decreases |p|
  {
    if |p| > 1 {
      WeightFront(p[..|p| - 1]);
      assert p[..|p| - 1][1..] == p[1..][..|p[1..]| - 1];
    }
  }

  /** Read backwards, a route is a route of the same weight. */
  lemma {:induction false} RouteReversed<T(!new)>(es: seq<Edge<T>>, w: seq<T>, p: seq<Edge<T>>)
    requires Route(es, w, p)
    ensures Route(es, Reverse(w), Reverse(p)) && Weight(Reverse(p)) == Weight(p)
    decreases |p|
  {
    if p != [] {
      RouteReversed(es, w[1..], p[1..]);
      WeightFront(p);
      assert Reverse(p)[..|p| - 1] == Reverse(p[1..]);
    }
  }

  /** Weights are not negative, so neither is the weight of a route. */
  lemma {:induction false} WeightNonNegative<T>(p: seq<Edge<T>>)
    requires NonNegative(p)
    ensures Weight(p) >= 0
    decreases |p|
  {
    if p != [] {
      WeightNonNegative(p[..|p| - 1]);
    }
  }

  /**
   * The lower bound behind Dijkstra's algorithm: a route from start either
   * ends at a visited vertex and weighs at least its distance, or passes an
   * unvisited vertex whose distance is at most the route's weight.
   */
  lemma {:induction false} LowerBound<T(!new)>(es: seq<Edge<T>>, vs: set<T>, start: T, distances: map<T, int>, previous: map<T, T>,
                                               unvisited: seq<T>, order: map<T, nat>, count: nat,
                                               w: seq<T>, p: seq<Edge<T>>)
    requires Endpoints(es, vs) && NonNegative(es) && start in vs
    requires Explored(es, vs, start, distances, previous, unvisited, order, count)
    requires Route(es, w, p) && w[0] == start
    ensures (w[|w| - 1] in order && distances[w[|w| - 1]] <= Weight(p))
      || (exists y :: y in unvisited && distances[y] <= Weight(p))
    decreases |p|
  {
    if p != [] {
      var w', p' := w[..|w| - 1], p[..|p| - 1];
      assert Route(es, w', p') by {
        forall k | 0 <= k < |p'|
          ensures p'[k] in es && Joins(p'[k], w'[k], w'[k + 1])
        {
          assert p'[k] == p[k] && w'[k] == w[k] && w'[k + 1] == w[k + 1];
        }
      }
      LowerBound(es, vs, start, distances, previous, unvisited, order, count, w', p');
      var e, q, z := p[|p| - 1], w[|w| - 2], w[|w| - 1];
      assert e in es && Joins(e, q, z);
      assert z in vs && q in vs;
      if q in order && distances[q] <= Weight(p') {
        assert Relaxed(es, distances, q);
        assert distances[z] <= Weight(p);
        if z !in order {
          assert z in unvisited;
        }
      }
    }
  }

  /** A route with an edge starts at a vertex of a well-formed graph. */
  lemma RouteLeavesVertex<T(!new)>(es: seq<Edge<T>>, vs: set<T>, w: seq<T>, p: seq<Edge<T>>)
    requires Endpoints(es, vs) && Route(es, w, p)
    ensures p != [] ==> w[0] in vs
  {
    if p != [] {
      assert p[0] in es && Joins(p[0], w[0], w[1]);
    }
  }

  /**
   * When the main loop stops, the recorded distance of end is a lower
   * bound on every route from start to end.
   */
  lemma Settled<T(!new)>(es: seq<Edge<T>>, vs: set<T>, start: T, end: T, distances: map<T, int>, previous: map<T, T>,
                         unvisited: seq<T>, order: map<T, nat>, count: nat)
    requires Endpoints(es, vs) && NonNegative(es)
    requires Explored(es, vs, start, distances, previous, unvisited, order, count)
    requires forall u :: u in unvisited ==> Lookup(distances, end) <= distances[u]
    requires end in unvisited || end in order || end !in vs
    ensures Shortest(es, start, end, distances)
  {
    forall w, p | Route(es, w, p) && w[0] == start && w[|w| - 1] == end
      ensures Lookup(distances, end) <= Weight(p)
    {
      RouteLeavesVertex(es, vs, w, p);
      if start in vs {
        LowerBound(es, vs, start, distances, previous, unvisited, order, count, w, p);
      }
    }
  }

  /**
   * Lines 109-149: the search.  On return the tables form the tree and no
   * route from start to end is lighter than the distance recorded for end.
   */
  method Explore<T(0, ==, !new)>(g: Graph<T>, start: T, end: T)
    returns (distances: map<T, int>, previous: map<T, T>, ghost order: map<T, nat>, ghost count: nat)
    requires WellFormed(g) && NonNegative(g.edges)
    ensures Tree(g.edges, Vertices(g), start, distances, previous, order, count)
    ensures Shortest(g.edges, start, end, distances)
  {
    ghost var es, vs := g.edges, Vertices(g);
    assert Endpoints(es, vs);
    var unvisited;
    distances, unvisited := Initialise(g, start);
    previous := map[];
    order, count := map[], 0;
    ExploredInit(es, vs, start, distances, unvisited);
    while |unvisited| > 0
      invariant Explored(es, vs, start, distances, previous, unvisited, order, count)
      decreases |unvisited|
    {
      var current, found := SelectMin(unvisited, distances);
      if !found {
        Settled(es, vs, start, end, distances, previous, unvisited, order, count);
        break;
      }
      if current == end {
        Settled(es, vs, start, end, distances, previous, unvisited, order, count);
        break;
      }
      ghost var distances0, previous0, unvisited0 := distances, previous, unvisited;
      unvisited := Without(unvisited, current);
      distances, previous := Relax(g.edges, current, distances, previous);
      ExploredStep(es, vs, start, distances0, previous0, unvisited0, order, count, current, distances, previous);
      order, count := order[current := count], count + 1;
    }
    if |unvisited| == 0 {
      Settled(es, vs, start, end, distances, previous, unvisited, order, count);
    }
  }

  /** A route extended by one more edge from its last vertex. */
  lemma RouteExtend<T(!new)>(es: seq<Edge<T>>, w: seq<T>, p: seq<Edge<T>>, x: T, e: Edge<T>)
    requires Route(es, w, p) && e in es && Joins(e, w[|w| - 1], x)
    ensures Route(es, w + [x], p + [e]) && Weight(p + [e]) == Weight(p) + e.weight
  {
    assert (p + [e])[..|p|] == p;
    forall k | 0 <= k < |p| + 1
      ensures (p + [e])[k] in es && Joins((p + [e])[k], (w + [x])[k], (w + [x])[k + 1])
    {
      if k < |p| {
        assert (p + [e])[k] == p[k] && (w + [x])[k] == w[k] && (w + [x])[k + 1] == w[k + 1];
      }
    }
  }

  /**
   * Lines 151-158: from end, the predecessors are followed back to a vertex
   * without one, each vertex added on the way, and start added last.  When
   * end has a distance the vertices form a route from end back to start,
   * of that weight; otherwise only start is added.
   */
  method Trace<T(0, ==, !new)>(ghost es: seq<Edge<T>>, ghost vs: set<T>, start: T, end: T,
                               distances: map<T, int>, previous: map<T, T>, ghost order: map<T, nat>, ghost count: nat)
    returns (path: ArraySequence<T>, ghost route: seq<Edge<T>>)
    requires Tree(es, vs, start, distances, previous, order, count)
    requires Lookup(distances, end) != IntMax
    ensures path.Valid() && fresh(path) && fresh(path.data)
    ensures end in distances ==> |path.Elements()| > 0 && path.Elements()[0] == end
    ensures end in distances ==> path.Elements()[|path.Elements()| - 1] == start
    ensures end in distances ==> Route(es, path.Elements(), route) && Weight(route) == distances[end]
    ensures end !in distances ==> path.Elements() == [start]
  {
    path := new ArraySequence();
    var current := end;
    route := [];
    while current in previous
      invariant path.Valid() && fresh(path) && fresh(path.data)
      invariant end !in distances ==> path.Elements() == [] && current == end
      invariant end in distances ==> current in distances && distances[current] < IntMax
      invariant end in distances ==> (path.Elements() + [current])[0] == end
      invariant end in distances ==> Route(es, path.Elements() + [current], route)
      invariant end in distances ==> Weight(route) == distances[end] - distances[current]
      decreases if current in order then order[current] else count
    {
      assert Parent(es, distances, previous, order, current);
      var next := previous[current];
      ghost var e := ViaEdge(es, next, current, distances[current] - distances[next]);
      ghost var back := path.Elements() + [current];
      path.Add(current);
      if end in distances {
        RouteExtend(es, back, route, next, e);
        route := route + [e];
      }
      current := next;
    }
    path.Add(start);
  }

  /** Lines 160-164: the elements of path, last to first, into a new sequence. */
  method Reversed<T(0, ==, !new)>(path: ArraySequence<T>) returns (reversedPath: ArraySequence<T>)
    requires path.Valid()
    ensures reversedPath.Valid() && fresh(reversedPath) && fresh(reversedPath.data)
    ensures reversedPath.Elements() == Reverse(path.Elements())
  {
    reversedPath := new ArraySequence();
    var i := path.size as int - 1;
    while i >= 0
      invariant -1 <= i < path.size
      invariant reversedPath.Valid() && fresh(reversedPath) && fresh(reversedPath.data)
      invariant reversedPath.Elements() == Reverse(path.Elements())[..path.size - 1 - i]
    {
      var r := path.Get(i);
      reversedPath.Add(r.value);
      i := i - 1;
    }
    assert Reverse(path.Elements())[..path.size] == Reverse(path.Elements());
  }

  /**
   * Lines 107-169: the path from start to end with its distance.  An
   * unreached end gives the empty path and INT_MAX; otherwise the path is a
   * route from start to end whose weight is the distance, and no route from
   * start to end is lighter.  An end that is not a vertex (and not start)
   * reads as distance 0 and gets the path holding start alone.
   */
  method Dijkstra<T(0, ==, !new)>(g: Graph<T>, start: T, end: T) returns (path: ArraySequence<T>, dist: int)
    requires WellFormed(g) && NonNegative(g.edges)
    ensures path.Valid() && fresh(path)
    ensures 0 <= dist <= IntMax
    ensures dist == IntMax <==> path.Elements() == []
    ensures dist < IntMax ==> path.Elements()[0] == start
    ensures dist < IntMax && (end in g.vertices || end == start) ==>
      && path.Elements()[|path.Elements()| - 1] == end
      && exists p :: Route(g.edges, path.Elements(), p) && Weight(p) == dist
    ensures forall w, p :: Route(g.edges, w, p) && w[0] == start && w[|w| - 1] == end ==> dist <= Weight(p)
    ensures forall w, p :: Route(g.edges, w, p) && w[0] == start && w[|w| - 1] == end && Weight(p) < IntMax ==> dist < IntMax
    ensures end !in g.vertices && end != start ==> path.Elements() == [start] && dist == 0
  {
    var distances, previous;
    ghost var order, count;
    distances, previous, order, count := Explore(g, start, end);
    if Lookup(distances, end) != IntMax {
      var back, route := Trace(g.edges, Vertices(g), start, end, distances, previous, order, count);
      path := Reversed(back);
      dist := Lookup(distances, end);
      if end in distances {
        RouteReversed(g.edges, back.Elements(), route);
      }
      return;
    }
    path := new ArraySequence();
    dist := IntMax;
  }
}
