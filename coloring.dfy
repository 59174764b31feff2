/**
 * greedyColoring of include/calc_algs.hpp: the vertices are coloured one by
 * one in adjacency-list order, each with the least colour that no neighbour
 * coloured before it has.  A vertex's index is its position in that order;
 * the colour table `colors` is indexed by it and holds -1 for "not yet
 * coloured" (the source's size_t -1).
 */
module Coloring {
  import opened HashTables
  import opened Graphs
  import opened ArraySequences

  /** The position of vertex v in the vertex order: what vertex_index_m maps it to. */
  function IndexOf<T(==)>(vs: seq<T>, v: T): (k: nat)
    requires v in vs
    ensures k < |vs| && vs[k] == v
  {
    FirstIndexOf(vs, v)
  }

  /** With each vertex once, the index of the k-th vertex is k. */
  lemma IndexOfDistinct<T>(vs: seq<T>, k: nat)
    requires Distinct(vs) && k < |vs|
    ensures IndexOf(vs, vs[k]) == k
  {
    FirstIndexOfAt(vs, vs[k], k);
  }

  /** The colours of those of the vertices ns whose index is below i. */
  ghost function ColoursBelow<T>(vs: seq<T>, ns: seq<T>, colors: seq<int>, i: nat): set<int>
    requires forall w :: w in ns ==> w in vs
    requires |colors| == |vs|
  {
    set w | w in ns && IndexOf(vs, w) < i :: colors[IndexOf(vs, w)]
  }

  /** The colours vertex i must avoid: those of its neighbours coloured before it. */
  ghost function Forbidden<T(!new)>(g: Graph<T>, colors: seq<int>, i: nat): set<int>
    requires WellFormed(g) && |colors| == |g.vertices| && i < |g.vertices|
  {
    ColoursBelow(g.vertices, g.neighbors[g.vertices[i]], colors, i)
  }

  /** Vertex i has the least colour its earlier neighbours leave free. */
  ghost predicate GreedyChoice<T(!new)>(g: Graph<T>, colors: seq<int>, i: nat)
    requires WellFormed(g) && |colors| == |g.vertices| && i < |g.vertices|
  {
    && colors[i] >= 0
    && colors[i] !in Forbidden(g, colors, i)
    && forall c :: 0 <= c < colors[i] ==> c in Forbidden(g, colors, i)
  }

  /** What vertex i must avoid depends only on the colours of the vertices before it. */
  lemma ColoursBelowPrefix<T>(vs: seq<T>, ns: seq<T>, c1: seq<int>, c2: seq<int>, i: nat)
    requires forall w :: w in ns ==> w in vs
    requires |c1| == |vs| && |c2| == |vs| && i <= |vs| && c1[..i] == c2[..i]
    ensures ColoursBelow(vs, ns, c1, i) == ColoursBelow(vs, ns, c2, i)
  {
    forall w | w in ns && IndexOf(vs, w) < i
      ensures c1[IndexOf(vs, w)] == c2[IndexOf(vs, w)]
    {
      assert c1[..i][IndexOf(vs, w)] == c2[..i][IndexOf(vs, w)];
    }
  }

  /** Extending the scanned neighbours by one. */
  lemma ColoursBelowSnoc<T>(vs: seq<T>, ns: seq<T>, w: T, colors: seq<int>, i: nat)
    requires forall x :: x in ns + [w] ==> x in vs
    requires |colors| == |vs|
    ensures ColoursBelow(vs, ns + [w], colors, i)
      == ColoursBelow(vs, ns, colors, i) + (if IndexOf(vs, w) < i then {colors[IndexOf(vs, w)]} else {})
  {
  }

  /** At most i colours occur among the first i entries. */
  lemma {:induction false} ImageBound(colors: seq<int>, i: nat)
    requires i <= |colors|
    ensures |set k | 0 <= k < i :: colors[k]| <= i
  {
    if i > 0 {
      ImageBound(colors, i - 1);
      assert (set k | 0 <= k < i :: colors[k]) == (set k | 0 <= k < i - 1 :: colors[k]) + {colors[i - 1]};
    }
  }

  /** The colours 0 .. n-1. */
  function Palette(n: nat): (s: set<int>)
    ensures forall c :: c in s <==> 0 <= c < n
    ensures |s| == n
  {
    if n == 0 then {} else Palette(n - 1) + {n - 1}
  }

  /**
   * Vertex i has fewer than n earlier neighbours' colours to avoid, so one
   * of the colours 0 .. n-1 is free.
   */
  lemma FreeColourExists<T(!new)>(g: Graph<T>, colors: seq<int>, i: nat)
    requires WellFormed(g) && |colors| == |g.vertices| && i < |g.vertices|
    ensures exists c :: 0 <= c < |g.vertices| && c !in Forbidden(g, colors, i)
  {
    var n := |g.vertices|;
    var forbidden := Forbidden(g, colors, i);
    assert forbidden <= set k | 0 <= k < i :: colors[k];
    ImageBound(colors, i);
    assert |forbidden| <= i by {
      SubsetCardinality(forbidden, (set k | 0 <= k < i :: colors[k]));
    }
    if Palette(n) <= forbidden {
      SubsetCardinality(Palette(n), forbidden);
      assert false;
    }
  }

  lemma SubsetCardinality<U>(a: set<U>, b: set<U>)
    requires a <= b
    ensures |a| <= |b|
  {
    assert b == a + (b - a);
  }

  /**
   * The greedy colouring is proper when adjacency is symmetric and has no
   * self-loops: neighbours get different colours.
   */
  lemma ProperColouring<T(!new)>(g: Graph<T>, colors: seq<int>, v: T, w: T)
    requires WellFormed(g) && |colors| == |g.vertices|
    requires forall k :: 0 <= k < |colors| ==> GreedyChoice(g, colors, k)
    requires forall x, y :: x in g.neighbors && y in g.neighbors[x] ==> y in g.neighbors && x in g.neighbors[y]
    requires forall x :: x in g.neighbors ==> x !in g.neighbors[x]
    requires v in g.neighbors && w in g.neighbors[v]
    ensures colors[IndexOf(g.vertices, v)] != colors[IndexOf(g.vertices, w)]
  {
    var vs := g.vertices;
    var iv, iw := IndexOf(vs, v), IndexOf(vs, w);
    if iw < iv {
      assert GreedyChoice(g, colors, iv);
      assert colors[iw] in Forbidden(g, colors, iv);
    } else if iv < iw {
      assert GreedyChoice(g, colors, iw);
      assert colors[iv] in Forbidden(g, colors, iw);
    }
  }

  /** The first loop: every vertex to its position in the vertex order. */
  method IndexVertices<T(==)>(vs: seq<T>) returns (index: map<T, nat>)
    requires Distinct(vs)
    ensures forall v :: v in index <==> v in vs
    ensures forall v :: v in index ==> index[v] == IndexOf(vs, v)
  {
    index := map[];
    var i := 0;
    while i < |vs|
      invariant 0 <= i <= |vs|
      invariant forall v :: v in index <==> v in vs[..i]
      invariant forall v :: v in index ==> v in vs && index[v] == IndexOf(vs, v)
    {
      IndexOfDistinct(vs, i);
      index := index[vs[i] := i];
      assert vs[..i + 1] == vs[..i] + [vs[i]];
      i := i + 1;
    }
    assert vs[..i] == vs;
  }

  /**
   * The neighbour scan of vertex i: available[c] is cleared for every colour
   * c of a neighbour coloured so far.
   */
  method MarkForbidden<T(!new)>(g: Graph<T>, index: map<T, nat>, colors: array<int>, i: nat) returns (available: array<bool>)
    requires WellFormed(g) && colors.Length == |g.vertices| && i < |g.vertices|
    requires forall v :: v in index <==> v in g.vertices
    requires forall v :: v in index ==> index[v] == IndexOf(g.vertices, v)
    requires forall k :: 0 <= k < i ==> 0 <= colors[k] < colors.Length
    requires forall k :: i <= k < colors.Length ==> colors[k] == -1
    ensures fresh(available) && available.Length == |g.vertices|
    ensures forall c :: 0 <= c < available.Length ==> (!available[c] <==> c in Forbidden(g, colors[..], i))
  {
    available := new bool[|g.vertices|](_ => true);
    ClearColours(g.vertices, g.neighbors[g.vertices[i]], index, colors, i, available);
  }

  /** The loop of the neighbour scan: clears the colour of each neighbour ns[j] coloured so far. */
  method ClearColours<T>(vs: seq<T>, ns: seq<T>, index: map<T, nat>, colors: array<int>, i: nat, available: array<bool>)
    requires forall w :: w in ns ==> w in vs
    requires colors.Length == |vs| && available.Length == |vs| && colors != available as object
    requires forall v :: v in vs ==> v in index && index[v] == IndexOf(vs, v)
    requires forall k :: 0 <= k < i && k < colors.Length ==> 0 <= colors[k] < colors.Length
    requires forall k :: i <= k < colors.Length ==> colors[k] == -1
    requires forall c :: 0 <= c < available.Length ==> available[c]
    modifies available
    ensures forall c :: 0 <= c < available.Length ==> (!available[c] <==> c in ColoursBelow(vs, ns, colors[..], i))
  {
    var j := 0;
    while j < |ns|
      invariant 0 <= j <= |ns|
      invariant forall c :: 0 <= c < available.Length ==> (!available[c] <==> c in ColoursBelow(vs, ns[..j], colors[..], i))
    {
      var neighbor := ns[j];
      var k := index[neighbor];
      if colors[k] != -1 {
        available[colors[k]] := false;
      }
      ColoursBelowSnoc(vs, ns[..j], neighbor, colors[..], i);
      assert ns[..j + 1] == ns[..j] + [neighbor];
      j := j + 1;
    }
    assert ns[..j] == ns;
  }

  /**
   * Giving vertex i a colour its earlier neighbours leave free, the least
   * such, extends the greedy choices made so far by one.
   */
  lemma ExtendChoices<T(!new)>(g: Graph<T>, before: seq<int>, after: seq<int>, i: nat, c: int)
    requires WellFormed(g) && |before| == |g.vertices| && i < |g.vertices| && after == before[i := c]
    requires forall k :: 0 <= k < i ==> GreedyChoice(g, before, k)
    requires 0 <= c && c !in Forbidden(g, before, i)
    requires Palette(c) <= Forbidden(g, before, i)
    ensures forall k :: 0 <= k <= i ==> GreedyChoice(g, after, k)
  {
    forall k | 0 <= k <= i
      ensures GreedyChoice(g, after, k)
    {
      assert after[..k] == before[..k];
      ColoursBelowPrefix(g.vertices, g.neighbors[g.vertices[k]], before, after, k);
      if k < i {
        assert GreedyChoice(g, before, k);
      }
    }
  }

  /**
   * The body of the outer loop for vertex i: the neighbour scan, then the
   * least available colour written to the vertex's entry.
   */
  method ColourVertex<T(!new)>(g: Graph<T>, index: map<T, nat>, table: array<int>, i: nat)
    requires WellFormed(g) && table.Length == |g.vertices| && i < |g.vertices|
    requires forall v :: v in index <==> v in g.vertices
    requires forall v :: v in index ==> index[v] == IndexOf(g.vertices, v)
    requires forall k :: 0 <= k < i ==> 0 <= table[k] < table.Length
    requires forall k :: i <= k < table.Length ==> table[k] == -1
    modifies table
    ensures 0 <= table[i] < table.Length && table[..] == old(table[..])[i := table[i]]
    ensures table[i] !in Forbidden(g, old(table[..]), i)
    ensures Palette(table[i]) <= Forbidden(g, old(table[..]), i)
  {
    var n := |g.vertices|;
    var current := g.vertices[i];
    IndexOfDistinct(g.vertices, i);
    var available := MarkForbidden(g, index, table, i);
    ghost var before := table[..];
    FreeColourExists(g, before, i);
    var c := 0;
    while c < n
      invariant 0 <= c <= n
      invariant forall d :: 0 <= d < c ==> !available[d]
      invariant table[..] == before
      modifies table
    {
      if available[c] {
        table[index[current]] := c;
        break;
      }
      c := c + 1;
    }
    if c == n {
      // every colour below n is forbidden, against FreeColourExists
      assert false;
    }
    assert table[..] == before[i := c];
  }

  /**
   * greedyColoring: one colour per vertex, below the vertex count, each the
   * greedy choice.
   */
  method GreedyColoring<T(!new)>(g: Graph<T>) returns (colors: seq<int>)
    requires WellFormed(g)
    ensures |colors| == |g.vertices|
    ensures forall k :: 0 <= k < |colors| ==> 0 <= colors[k] < |g.vertices|
    ensures forall k :: 0 <= k < |colors| ==> GreedyChoice(g, colors, k)
  {
    var n := |g.vertices|;
    var table := new int[n](_ => -1);
    var index := IndexVertices(g.vertices);
    var i := 0;
    while i < n
      invariant 0 <= i <= n
      invariant forall k :: 0 <= k < i ==> 0 <= table[k] < n
      invariant forall k :: i <= k < n ==> table[k] == -1
      invariant forall k :: 0 <= k < i ==> GreedyChoice(g, table[..], k)
      modifies table
    {
      ghost var before := table[..];
      ColourVertex(g, index, table, i);
      ExtendChoices(g, before, table[..], i, table[i]);
      i := i + 1;
    }
    colors := table[..];
  }
}
